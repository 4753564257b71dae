# Express logger CSV store, in Dafny

This project models the CSV side of the Node-RED express logger node.

- **The live log** (`express-logger.js`). This is one CSV file with a ten-column header. The node appends one row per HTTP exchange and one per system event.
  - Before every append the file's size is compared with the configured maximum. A full file is deleted and started again: the header, a `CSV-FILE-RESET` row, and then the new row.
  - Export reports the file, its size and its record count.
  - Delete removes the file and starts a new one holding a `CSV-FILES-DELETED` row.
- **The request hook** (`express-logger.js`). It ignores socket.io traffic and requests without a URL. It stamps a start time on every other request and wraps `res.end` once per response. The wrapper writes one row to the log when the response completes.
- **The buffer-backed export of the download test script** (`test-csv-download.js`). It serialises the entries held in memory, header first, into a new file named after the time of the export.
- **The two download routes** (`test-csv-download.js`). They serve a file only if `path.join(exportsDir, fileName)` exists and starts with `exportsDir`.

Modules:

- `Strings`: `startsWith`, `includes`, `split`, `join` and ASCII `toLowerCase`.
- `CsvFormat`: JavaScript values, their truthiness, and how one value becomes one field.
- `CsvParse`: an RFC 4180 (section 2) reader, and proofs that it reads back what the encoder writes.
- `LogRecord`: the ten-column entry, the defaults applied before writing, and system-event rows.
- `CsvStore`: the file as a value `Disk(present, content)`, and functions saying what each store operation leaves on disk.
  - `class Store` holds the configuration and the file.
  - Its methods re-enter each other as the JavaScript functions do, and are proved to leave exactly what those functions say.
- `RequestHook`: the `Request` and `Response` objects, the `request` listener, and the wrapped `end`.
- `PosixPath`: `path.normalize` and `path.join` of Node's POSIX path module.
- `BufferExport`: the download test script's `MockExpressLoggerNode` with its export method, the download decision, and examples of what the guard lets through.

Time is a parameter: `now` is the ISO string of `new Date()`, and `nowMs` is `Date.now()`. Characters are bytes (ASCII), so a file's size in bytes is its length.

## Model

| member | source | states |
|---|---|---|
| CsvFormat.RenderField | express-logger.js:91-98 | A field is `value \|\| ''` quoted when needed. Only strings are ever quoted, but this equals quoting the value's text whatever its type. The field is empty exactly when the value is falsy (`''`, `0`, `false`, missing). |
| CsvFormat.QuoteKeepsLineFeeds | express-logger.js:94-96 | A quoted field holds exactly as many line feeds as its text: quoting neither adds nor drops one. |
| CsvParse.FieldRoundTrip | express-logger.js:94-96 | An RFC 4180 reader gives back the value's text from the rendered field, and leaves what follows the field. This holds for quoted fields with doubled inner quotes and for bare fields alike. |
| CsvParse.RenderedTextsAgree | express-logger.js:92-97 | Two values rendered to the same field have the same text. |
| CsvParse.RecordRoundTrip | express-logger.js:91-101 | Reading back one encoded row gives the texts of its values, in order, and the text after its line feed. |
| CsvParse.DocumentRoundTrip | express-logger.js:101-102 | Reading back any number of appended rows gives as many records, each holding the texts written, in the order written. |
| LogRecord.BuildEntry | express-logger.js:77-88 | The defaults fail exactly when the user agent is truthy and not a string (`substring` throws, and the row is dropped). A missing timestamp becomes `now`. The user agent keeps its first `min(100, length)` characters. Every other column renders as it came in. |
| LogRecord.BuildEntryKeepsTexts | express-logger.js:79-87 | The defaults change the text of no column except the timestamp and the user agent. |
| LogRecord.RowReadsBack | express-logger.js:19 | A data row reads back as exactly ten fields, the texts of the entry's columns in the order of `csvHeaders`. |
| LogRecord.StatusFor | express-logger.js:117 | The status is 500 exactly for `error`, 300 exactly for `warn`, and 200 otherwise. |
| LogRecord.SystemEventData | express-logger.js:113-124 | The data of a system event is already complete: the defaults leave it unchanged. |
| LogRecord.SystemColumnTexts | express-logger.js:113-124 | A system row's columns, in order: the time, `SYSTEM`, the event type, the status, an empty response time, `localhost`, `Node-RED-System`, two empty flags. The last column holds the details exactly when the event type mentions `CONNECTION` or `SERVER`. |
| LogRecord.SystemRow | express-logger.js:110-127 | The row a system event adds reads back as the column texts above. |
| CsvStore.ConfiguredThreshold | express-logger.js:16 | `parseInt(x) \|\| 50`: NaN and 0 fall back to 50, every other number is kept (negatives included), and the result is never 0. |
| CsvStore.NegativeThresholdResetsFreshFile | express-logger.js:16 | As written, a setting of -1 is kept. Both the header-only file and the file after a reset then need a reset: the reset's own append resets again. |
| CsvStore.EffectiveThreshold | express-logger.js:52 | The threshold the store uses is at least 1. It equals the configured one whenever that is positive. Under it, a header-only file never needs a reset. |
| CsvStore.HeaderFacts | express-logger.js:19 | The header line is short, holds no line feed, and is not blank. |
| CsvStore.AfterInit | express-logger.js:25-44 | Initialising creates a header-only file when there is none and export is enabled. An existing file is left byte for byte. |
| CsvStore.InitIdempotent | express-logger.js:25-44 | Initialising twice leaves what initialising once does. |
| CsvStore.AddAfterReset | express-logger.js:46-67 | For a threshold of at least 1 MB, an append to a full file leaves the header, then the reset row, then the new row. |
| CsvStore.AddAppendsRow | express-logger.js:101-102 | Below the threshold, the only change an append makes is the new row at the end. |
| CsvStore.AbsentFileGetsNoHeader | express-logger.js:47 | The size check skips an absent file, so an append to it creates a file holding the row alone, without the header. |
| CsvStore.ResetRowIgnoresDetails | express-logger.js:62 | The details of a reset (its size) never reach the row, because `CSV-FILE-RESET` mentions neither `CONNECTION` nor `SERVER`. |
| CsvStore.ResetLeavesOneRecord | express-logger.js:52-62 | A reset leaves the header and the `CSV-FILE-RESET` row, which export counts as one record. |
| CsvStore.ExportOutcome | express-logger.js:129-167 | Disabled gives "CSV export not enabled". A missing file gives "No CSV log data available". A failing `statSync` gives its own message. Otherwise export succeeds with the file's path, its base name, its size, and its record count. The count is 0 when reading the file failed. |
| CsvStore.RecordCountOfRows | express-logger.js:146-148 | For a file the store wrote (the header, then rows without line feeds), the record count is the number of rows. |
| CsvStore.AppendedRecordCount | express-logger.js:146-148 | One more appended row is one more record in the count. |
| CsvStore.Basename | express-logger.js:153 | The base name holds no `/`. It is one of the path's pieces between slashes, and every piece after it is empty. It is empty only when every piece is. |
| CsvStore.BasenameOfJoin | express-logger.js:153 | The base name of slash-free directory names and a non-empty file name, joined with `/`, is that file name. |
| CsvStore.ExportReportsFileName | express-logger.js:153-159 | A successful export of the log file `dir/.../name` reports `fileName` = `name`. |
| CsvStore.SystemRowCount | express-logger.js:110-127 | A file started afresh with one system event holds one record. |
| CsvStore.ExportAfterDelete | express-logger.js:169-202 | After deleting an existing file, the next export counts one record: the `CSV-FILES-DELETED` row. |
| CsvStore.Store.constructor | express-logger.js:210-216 | At start-up with export enabled, the file is initialised. Then an `EXPRESS-LOGGER-INIT` row is appended, and after it the `NODE-RED-STARTUP` row of line 481, carrying the process id. With export disabled, the disk is left alone. The store keeps the corrected threshold `EffectiveThreshold`, not line 16's value (see "## Left out" and "## Findings"). |
| CsvStore.Store.InitializeCsvFile | express-logger.js:25-44 | The new file is `AfterInit` of the old one. |
| CsvStore.Store.CheckCsvFileSize | express-logger.js:46-67 | The new file is `AfterCheck` of the old one. It performs at most one reset: exactly one when the file was full. |
| CsvStore.Store.AddToCsvLog | express-logger.js:69-107 | The new file is `AfterAdd` of the old one. The nested reset terminates and resets once at most. |
| CsvStore.Store.LogSystemEventToCsv | express-logger.js:110-127 | Appends the system event's data as `AddToCsvLog` does. |
| CsvStore.Store.ExportToCsv | express-logger.js:129-167 | Returns `ExportOutcome` of the file and the two read failures, and changes nothing. |
| CsvStore.Store.DeleteCsvFiles | express-logger.js:169-202 | Disabled gives an error and no change. A failing `unlinkSync` gives its message and leaves the file as it was. Otherwise `deletedCount` is 1 when the file existed and 0 when not. The new file is `AfterDelete` of the old one: a new header and deletion row, or no file at all. |
| CsvStore.Store.Close | express-logger.js:487-520 | Closing appends one row: `EXPRESS-LOGGER-REMOVED` when the node is removed, `EXPRESS-LOGGER-STOPPED` otherwise. |
| RequestHook.EditorAndDashboardExclusive | express-logger.js:423-424 | No URL is both an editor request and a dashboard request. |
| RequestHook.ConnectionIssues | express-logger.js:447 | The column is `connection-close` exactly when the header is present and its lower case contains `close`, and `''` otherwise. |
| RequestHook.ConnectionIssuesIgnoresCase | express-logger.js:447 | The header's case does not change the verdict. |
| RequestHook.ConnectionExamples | express-logger.js:447 | `Close` is flagged. `keep-alive` and a missing header are not. |
| RequestHook.ResponseTime | express-logger.js:432 | The response time is now minus the start time when one was stamped, and 0 when none was. |
| RequestHook.ClientAddress | express-logger.js:442 | The first truthy of `req.ip`, the connection's address and the socket's address. |
| RequestHook.OnRequest | express-logger.js:414-429 | A skipped request (empty URL, or one containing `/socket.io`) changes nothing. Any other request gets its start time. Its response is wrapped only if not already hooked, so it never carries two wrappers. |
| RequestHook.End | express-logger.js:430-455 | A wrapped response, when it ends, appends its row to the store as `addToCsvLog` does. The row holds the URL as it is at that moment, and the flags computed when the request arrived. An unwrapped one logs nothing. |
| RequestHook.RequestDataTexts | express-logger.js:437-448 | The data handed to the store: its method, URL (read when the response ends) and status are as they came. The response time is `ResponseTime`, and the address is `ClientAddress` of the request's three addresses. The editor and dashboard flags read `true` exactly when the wrapper classified the request so. The last column is the Connection verdict. |
| RequestHook.RequestEntry | express-logger.js:437-451 | The defaults never drop the data, and the same holds for the columns of the entry actually written. |
| PosixPath.Normalize | test-csv-download.js:130 | `path.normalize` never yields the empty string. |
| PosixPath.ResolvePlain | test-csv-download.js:130 | Resolution keeps segments that are not empty, `.` or `..` as they are. |
| PosixPath.JoinPlainName | test-csv-download.js:85 | Joining an absolute directory and a plain file name is plain concatenation with `/`. |
| PosixPath.JoinClimbs | test-csv-download.js:130 | A name starting with `..` climbs out of the directory: the result is the parent followed by the rest of the name. |
| PosixPath.ClimbedPrefix | test-csv-download.js:130-134 | The path a climbing name leads to starts with the directory exactly when the name's segment after `..` starts with the directory's last segment. |
| PosixPath.JoinDot | test-csv-download.js:130 | The name `.` joins to the directory itself. |
| BufferExport.BuildContent | test-csv-download.js:67-81 | The loop builds the export's content: the eleven-column header line, then one row per entry, in buffer order. |
| BufferExport.MockLoggerNode.ExportToCsv | test-csv-download.js:65-106 | On success, exactly one file is written: the content, at `path.join(csvExportPath, name)`. The result carries that path, the name, and `recordCount` equal to the number of buffered entries. A write failure returns the error, and no file is written. |
| BufferExport.ExportFileNameShape | test-csv-download.js:83-84 | The only `.` in the export's name is the one before `csv`. The name holds no `:`, and no `/` when the timestamp has none. |
| BufferExport.HeaderEncodes | test-csv-download.js:67-69 | The header line is the encoding of the eleven column names, `hasRefreshIndicators` included; each name is written as it is. |
| BufferExport.RowsEncode | test-csv-download.js:71-81 | The rows of the export are the live store's encoding of each entry's eleven columns: field rendering is shared with the live log. |
| BufferExport.ExportReadsBack | test-csv-download.js:67-81 | Reading an export back gives the header's names, then one record per entry, in buffer order, holding that entry's texts. |
| BufferExport.Download | test-csv-download.js:128-167 | Any refusal is `404 "File not found"`. Both routes make the same decision. |
| BufferExport.ExportedFileIsServed | test-csv-download.js:139-140 | A file the export has just written is served with type `text/csv`, disposition `attachment; filename="<name>"`, and the content written. |
| BufferExport.ClimbingNameGuard | test-csv-download.js:128-167 | For every plain directory and every name made of `..` and plain segments, the routes serve the parent-relative path exactly when it exists and the segment after `..` starts with the directory's own name. When they serve, they serve that path's content. |
| BufferExport.TraversalRefused | test-csv-download.js:134 | A name that climbs to the parent is refused, whatever is on disk, unless its segment after `..` starts with the directory's own name. |
| BufferExport.SecretRefused | test-csv-download.js:134 | An instance: `../secret.csv` from `/srv/exports` is refused, whatever is on disk. |
| BufferExport.SiblingPrefixPasses | test-csv-download.js:155 | The guard compares strings, not segments. `../exports-evil/x.csv` joins to `/srv/exports-evil/x.csv`, which starts with `/srv/exports`, and an existing file there is served. |
| BufferExport.DotPassesPrefixTest | test-csv-download.js:130-134 | The name `.` joins to the exports directory itself, which passes the prefix test. |

## Left out

- I/O is modelled on values. `fs.existsSync`, `statSync`, `readFileSync`, `writeFileSync`, `appendFileSync`, `unlinkSync` and `mkdirSync` act on `Disk` (the live file) or on a map from paths to contents (the exports directory). Directory creation and permissions are not modelled.
- Failing file operations are inputs where the source returns them. In `exportToCsv`, a failing `statSync` returns `{success:false, error}` (lines 163-166), and a failing `readFileSync` leaves the count at 0 (lines 149-151). In `deleteCsvFiles`, a failing `unlinkSync` returns `{success:false, error}` (lines 198-201). For the buffer export, `writeError` yields `{success:false, error}` with no file written.
- Failing writes inside the live store are not modelled: the model's `writeFileSync`, `unlinkSync` and `appendFileSync` always succeed. A failing `appendFileSync` (lines 102-106) leaves the file as it was. A failing `unlinkSync` in the size check (lines 55, 63-65) leaves the full file, and the new row is still appended after it. A failing `writeFileSync` in `initializeCsvFile` (lines 38, 41-43) during a reset leaves no file. The `CSV-FILE-RESET` append (lines 62, 126, 47, 102) then creates a file that holds that row without the header, as `AbsentFileGetsNoHeader` shows for any absent file.
- `node.log`, `node.warn` and `node.error`, and the `toFixed` sizes in messages and in the reset row's details. `ResetRowIgnoresDetails` shows those details never reach the row.
- UTF-8 byte counts: characters are taken to be bytes, so size is length.
- Number formatting: numbers are integers, and float formatting is not modelled.
- The time: `Date.now()` and `toISOString()` are parameters. The two `Date.now()` calls on line 432 are taken as one instant (`nowMs`). The ISO time of line 444 is a separate parameter (`nowIso`), and the model does not tie it to `nowMs`.
- RequestHook.End: does not model `originalEnd.call`, which sends the response and changes no state the model tracks.
- `res.get('Connection')` is an input of the response. Headers other than `user-agent` are not modelled.
- CsvStore.Store: keeps `EffectiveThreshold` of the setting, not line 16's `parseInt(...) || 50`. For a negative setting the source resets over and over until the call stack is exhausted (see "## Findings"). The store does not model that; it uses the default of 50 instead.
- RequestHook.RequestEntry: requires the user agent to be a string or missing. Node gives a string or `undefined` for that header, so the branch where `substring` throws is covered by `LogRecord.BuildEntry` alone.
- `loggingMiddleware` (express-logger.js:349-403) is defined but never installed, so its path filter affects no recorded row. It is not modelled.
- Event, timer and process wiring (express-logger.js:219-346): these are host subscriptions, set up two seconds after start-up. Each one only calls `logSystemEventToCsv`, which is modelled. The unconditional `NODE-RED-STARTUP` row (line 481) is part of `Store.constructor`, and the `close` handler (lines 487-520) is `Store.Close`.
- The `request` listener is a closure over the node that installed it, and it is never removed on close (lines 414, 487-520). After a redeploy, the old node's listener and configuration keep wrapping responses and writing rows, beside the new node's. `RequestHook.End` takes the store as a parameter, so the model does not capture which store a listener writes to, or that several listeners may see one request.
- HTTP routes, authorisation, and the streaming of downloads (express-logger.js:526-644, test-csv-download.js:125-201, apart from the guard decision).
- Directories on disk: the exports directory is a map from file paths to contents. `fs.existsSync` is also true for a directory, so a name that joins to a directory passes the guard in the source. The name `.` joins to the exports directory itself and passes the prefix test (`DotPassesPrefixTest`). What the routes then do with a directory is not modelled.
- download-fallback.js is not part of this model: it is browser DOM code. test-node.js is not part of this model: it only probes the file system.
- `PosixPath.Normalize` and `PosixPath.Join` follow Node's POSIX rules for the paths the routes build. Windows paths are not modelled.
- Record count: the store counts physical non-blank lines after `split('\n')`. It does not count CSV records, so a row whose field holds a quoted line feed counts once per physical line, as the source does. The lemmas about counts assume rows without line feeds.
- `deleteCsvFiles` recreates the file with a `CSV-FILES-DELETED` row (express-logger.js:185-190), so the next export counts one record (`ExportAfterDelete`).
- The download guard is modelled as written: a raw `startsWith` without a separator check (test-csv-download.js:134, 155). It does not ensure that the served path lies inside the exports directory. `ClimbingNameGuard` says exactly which climbing names pass, and `SiblingPrefixPasses` gives one.

## Findings

| source | as written | input that shows it | evidently intended | confidence | as-written member | corrected member |
|---|---|---|---|---|---|---|
| express-logger.js:16 | `parseInt(config.maxCsvFileSize) \|\| 50` keeps a negative setting. A header-only file then counts as full, and the reset's own `CSV-FILE-RESET` append (line 62, via line 74) resets again, level after level, until the call stack is exhausted. | `maxCsvFileSize = "-1"` | A threshold of at least 1 MB, falling back to 50 otherwise. Under it, the append made during a reset never resets again. | not executed | CsvStore.NegativeThresholdResetsFreshFile | CsvStore.EffectiveThreshold |
