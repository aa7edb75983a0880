# Wikimedia pageview pipeline — a Dafny model

This project models the part of a small ETL pipeline for Wikimedia hourly
pageview dumps that does not depend on the network or the database engine:

- **Naming and paths.** From a date and an hour, the pipeline builds the dump
  file name `pageviews-YYYYMMDD-HH0000`, its URL under
  `https://dumps.wikimedia.org/other/pageviews/`, the local path
  `data/raw/<name>.gz` and the CSV path `data/csv/<stem>.csv`. It also builds
  the table names `pageview_raw_YYYYMMDD`, `pageview_YYYYMMDD` and
  `pageview_YYYY`. The reverse direction is modelled too: the stem read back
  from a path and the timestamp `strptime` parses from it.
- **Idempotent artifact cache.** A dump is downloaded only when its local
  path is absent. So files already there are never overwritten, and a second
  run of the same downloads changes nothing and sends no request.
- **Table-conflict policy.** The orchestrated flow always drops the raw table
  and creates it again. The stand-alone script creates the table only
  when it is absent. On `DuplicateTable` it drops and recreates it only when
  `replace` is set, and it passes `replace` to the first file of the day only.
- **Transformation plan.** Six SQL templates are read from `sql/`. Their
  bracketed placeholders (`[src_table]`, `[agg_table]`, `[dest_table]`,
  `[src_domain_table]`) are replaced with `str.replace`, which replaces every
  occurrence. The statements run in order on one connection and are committed
  once, after the last one.
- **Post-download size check.** The URL is rebuilt from the local path, and
  the local size is compared with the size the server reports.
- **Scheduled flow.** The flow takes the day two days before today, derives
  the three table names, ingests that day's 24 dumps and runs the
  transformation.

Files and modules:

| File | Module | What it holds |
|---|---|---|
| `wrappers.dfy` | `Wrappers` | `Option` and `Result` |
| `decimal.dfy` | `Decimal` | Python's `str(int)` and `{:02d}` |
| `calendar.dfy` | `Calendar` | `datetime` arithmetic, `strptime` and `str(datetime)` |
| `text.dfy` | `Text` | `split("/")[-1]`, `split(".")[0]`, `os.path.join`, `str.replace` and placeholder tokens |
| `naming.dfy` | `Naming` | file, URL, path and table names |
| `store.dfy` | `Store` | the file tree, the dump server, the download cache, the warehouse catalog and the session journal, and the `Host` and `Warehouse` classes |
| `session.dfy` | `Sessions` | what one database session records |
| `flow_ingestion.dfy` | `FlowIngestion` | `flow/f_ingestion.py` |
| `ingestion.dfy` | `Ingestion` | `ingestion.py` |
| `flow_transformation.dfy` | `FlowTransformation` | `flow/f_transformation.py` |
| `testing.dfy` | `Testing` | `testing.py` |
| `flow_main.dfy` | `FlowMain` | `sql/flow/f_main.py` |

Code that updates the file tree or the database is written as methods on two
classes:

- `Store.Host` holds the file tree and the list of requested URLs.
- `Store.Warehouse` holds the table catalog and the session journal.

Each such method is proved against a function on values (`Fetch`,
`FetchAll`, `Export`, `ExportAll`, `AppendAll`, `Load`, `CreatePolicy`,
`Generate`, `GenerateAll`, `Session`). The properties are proved about those
functions as lemmas.

The following are parameters:

- the dump server: `remote: string -> Body`;
- the HEAD request's `content-length`: `remote: string -> nat`;
- `os.path.getsize`: `size: File -> nat`;
- the contents of the SQL files: `read: string -> string`;
- which statements the database refuses: `rejects: string -> bool`;
- the clock: `today`, and `nows`, one `datetime.now()` reading for each file of the day.

## Model

| member | source | states |
|---|---|---|
| `Decimal.NatStr` | flow/f_ingestion.py:43 | the decimal text of `n` is digits only, reads back as `n`, and has no leading zero |
| `Decimal.IntStr` | flow/f_ingestion.py:43 | `str(n)` starts with `-` exactly when `n` is negative, and reads back as `n` otherwise |
| `Decimal.ZeroPadShape` | flow/f_ingestion.py:85 | a zero-filled field of `str(datetime)` is `w` digits wide when the numeral is shorter, the numeral itself otherwise, and reads back as `n` |
| `Decimal.Pad2Shape` | flow/f_ingestion.py:43 | `{n:02d}` is at least two characters, and for `0 <= n < 100` it is exactly two digits that read back as `n` |
| `Decimal.IntStrInjective` | sql/flow/f_main.py:9-11 | different integers render differently |
| `Calendar.NextDay` | sql/flow/f_main.py:7 | there is no next day only after 9999-12-31; otherwise the next day is valid and one day number later |
| `Calendar.PrevDay` | sql/flow/f_main.py:7 | there is no previous day only before 0001-01-01; otherwise the previous day is valid and one day number earlier |
| `Calendar.SubtractDaysOrdinal` | sql/flow/f_main.py:7 | `date - timedelta(days=k)` lies exactly `k` day numbers earlier |
| `Calendar.SubtractDaysFails` | sql/flow/f_main.py:7 | the subtraction overflows exactly when the day number is at most `k` |
| `Calendar.AddAfterSubtract` | sql/flow/f_main.py:7 | adding `k` days after subtracting `k` gives back the date |
| `Calendar.NextOfPrev` | sql/flow/f_main.py:7 | the day after the previous day is the day itself |
| `Calendar.PrevOfNext` | sql/flow/f_main.py:7 | the day before the next day is the day itself |
| `Calendar.Strptime` | flow/f_ingestion.py:85 | a parsed timestamp is always a valid date and time |
| `Calendar.ScanPieces` | flow/f_ingestion.py:85 | a text split into pieces that each fit their directive parses field by field into the filled-in timestamp |
| `Calendar.FormatDateTimeLayout` | flow/f_ingestion.py:85 | `str(datetime)` is `YYYY-MM-DD HH:MM:SS` with each field zero-padded in its place |
| `Calendar.FormatDateTimeInjective` | flow/f_ingestion.py:85 | different valid timestamps render as different texts |
| `Text.LastSegmentShape` | flow/f_ingestion.py:71 | `split(sep)[-1]` is a suffix with no `sep` in it, preceded by `sep` when it is not the whole text |
| `Text.FirstSegmentShape` | flow/f_ingestion.py:71 | `split(sep)[0]` is a prefix with no `sep` in it, followed by `sep` when it is not the whole text |
| `Text.LastSegmentOf` | flow/f_ingestion.py:71 | what follows the last separator is the last segment |
| `Text.FirstSegmentOf` | flow/f_ingestion.py:71 | what precedes the first separator is the first segment |
| `Text.JoinShape` | flow/f_ingestion.py:50 | `os.path.join(a, b)` ends with `b`; an absolute `b` replaces `a`; otherwise the result starts with `a`, with a `/` right before `b` |
| `Text.JoinLastSegment` | flow/f_ingestion.py:50 | the last segment of a joined path is the name joined on |
| `Text.ReplaceUsesToken` | flow/f_transformation.py:45-58 | in a template whose every `[` opens one of the given tokens, replacing one token leaves every `[` opening one of the others |
| `Text.AbsentToken` | flow/f_transformation.py:45-58 | a token outside the set a template's `[` characters open does not occur in it |
| `Text.SubstituteClears` | flow/f_transformation.py:45-58 | after the replacements of a step, with `[`-free replacement texts, none of the step's tokens occurs and every `[` left opens another token |
| `Text.BracketFreeNamesAreNotEnough` | flow/f_transformation.py:45-47 | a `[`-free table name alone does not guarantee the token is gone: `"[s[src_table]]"` with `[src_table]` replaced by `rc_table` becomes `[src_table]` |
| `Naming.RawPathLayout` | flow/f_ingestion.py:43-50 | the raw path is `data/raw/` + dump name + `.gz` |
| `Naming.CsvPathLayout` | flow/f_ingestion.py:101-106 | the CSV path of a relative name is `data/csv/` + name + `.csv` |
| `Naming.FilenameIsPlain` | flow/f_ingestion.py:43 | a dump name holds no `/` and no `.` |
| `Naming.StemOfRawPath` | flow/f_ingestion.py:71 | the stem read back from a raw path is the dump name it was built from |
| `Naming.CsvPathOfStem` | flow/f_ingestion.py:173-174 | the CSV file of a dump is `data/csv/` + its stem + `.csv` |
| `Naming.ParseRawFilename` | flow/f_ingestion.py:85 | for a valid date with a four-digit year and an hour below 24, the dump name parses back to that date and hour, with minute and second 0 |
| `Naming.RawPathStamp` | flow/f_ingestion.py:85 | the timestamp read from a raw path's stem is the date and hour it was built from |
| `Naming.RawPathInjective` | flow/f_ingestion.py:43-50 | different dates or hours, with two-digit fields, give different raw paths |
| `Naming.DumpNameInjective` | flow/f_ingestion.py:43 | the rendered fields are recovered from a dump name |
| `Naming.CsvPathIsNotRawPath` | flow/f_ingestion.py:106 | no CSV path is a raw path, so an export never overwrites a dump |
| `Naming.CsvPathInjective` | flow/f_ingestion.py:101-106 | different relative names give different CSV paths |
| `Naming.ExportDeterminesHour` | flow/f_ingestion.py:172-175 | two hours of one day export to the same CSV file only when they are the same hour |
| `Naming.ExportIsNotDump` | flow/f_ingestion.py:172-175 | a day's export never lands on one of that day's dumps |
| `Naming.CsvPathsIndex` | flow/f_ingestion.py:170-176 | the CSV paths of a list of dumps are one per dump, in order, each the dump's export path |
| `Naming.SeparateFromPairs` | flow/f_ingestion.py:170-176 | dumps with distinct exports that land on no dump do not disturb one another's exports |
| `Naming.DaySeparation` | flow/f_ingestion.py:161-176 | distinct hours of one day do not disturb one another's exports |
| `Naming.AllHoursInOrder` | flow/f_ingestion.py:162 | `range(24)` is the hours 0 to 23 in order |
| `Store.FetchCaches` | flow/f_ingestion.py:52-61 | after a download the path exists; present files are never overwritten; a new file holds what the server sent; nothing else appears; the server is asked exactly when the file was absent |
| `Store.FetchIdempotent` | flow/f_ingestion.py:52-61 | downloading the same file twice does no more than once |
| `Store.FetchAllCovers` | flow/f_ingestion.py:161-167 | after a day's downloads every target exists, old files are unchanged, only targets appear, and requests are only added |
| `Store.FetchAllNoop` | flow/f_ingestion.py:161-167 | when every target exists, the downloads change nothing and request nothing |
| `Store.FetchAllIdempotent` | flow/f_ingestion.py:161-167 | a second run of the same downloads changes nothing and requests nothing |
| `Store.Take` | flow/f_ingestion.py:77 | `nrows` keeps the first `n` lines, or all of them |
| `Store.ReadDump` | flow/f_ingestion.py:78-82 | reading succeeds exactly when the dump's rejected part, if any, lies beyond the first `nrows` lines; it yields those lines; a missing file is `FileNotFoundError`, and every other reader failure is reported as `ParserError` |
| `Store.ReadCsv` | flow/f_ingestion.py:126-129 | reading succeeds exactly on an exported CSV file and yields its frame; a missing file is `FileNotFoundError` |
| `Store.Append` | flow/f_ingestion.py:124-130 | `COPY` succeeds exactly when the file is readable and the table exists, and puts the file's rows after the table's |
| `Store.CsvRowsReadable` | flow/f_ingestion.py:179-181 | the rows of a file list exist exactly when every file is readable |
| `Store.AppendAllRows` | flow/f_ingestion.py:179-181 | appending readable files to an existing table leaves its old rows followed by every file's rows in order, and no other table changes |
| `Store.AppendAllFails` | flow/f_ingestion.py:179-181 | an unreadable file stops the appends with an error |
| `Store.Host.Download` | flow/f_ingestion.py:52-61 | the host's files and requests become `Fetch` of the old ones |
| `Store.Warehouse.Create` | ingestion.py:92-93 | `CREATE TABLE` makes an empty table when it is absent, and otherwise reports the duplicate and changes nothing |
| `Store.Warehouse.Copy` | flow/f_ingestion.py:124-130 | the catalog becomes `Append` of the old one, or is unchanged with the error |
| `Store.Warehouse.Execute` | flow/f_transformation.py:41 | an accepted statement is added to the journal; a refused one adds nothing; the tables do not change |
| `Sessions.SessionShape` | flow/f_transformation.py:39-59 | the session is the executions of the accepted prefix, then one commit exactly when no statement is refused; the statement after the prefix is refused |
| `Sessions.CommitsOnce` | flow/f_transformation.py:59 | the session commits exactly when no statement is refused, only as its last event; every other event executes the statement of the plan at that position |
| `Sessions.AcceptedPrefixIs` | flow/f_transformation.py:39-59 | a prefix of accepted statements that ends at a refusal or the plan's end is the accepted prefix |
| `Sessions.SessionStopsAt` | flow/f_transformation.py:39-59 | such a session records exactly those executions and commits exactly when the prefix is the whole plan |
| `Sessions.ExecuteNext` | flow/f_transformation.py:41-58 | one `cur.execute` keeps the journal on course for the whole session, and after a refusal the journal is final and holds no commit |
| `FlowIngestion.DataframeOutcome` | flow/f_ingestion.py:63-89 | the frame exists exactly when the dump reads and its stem parses; read errors pass through; an unparsable stem is `ValueError`; the frame has the five columns and one row per line |
| `FlowIngestion.OneStampPerFile` | flow/f_ingestion.py:85-87 | every row is the file's timestamp followed by the dump line's four fields |
| `FlowIngestion.DumpFrameStamp` | flow/f_ingestion.py:85 | a downloaded dump's rows all carry its date and hour |
| `FlowIngestion.DataframeLocal` | flow/f_ingestion.py:63-89 | a frame depends only on its dump file |
| `FlowIngestion.DownloadRawPageviews` | flow/f_ingestion.py:32-61 | returns the raw path of the date and hour, and the host becomes `Fetch` with that path and URL |
| `FlowIngestion.HoursDefault` | flow/f_ingestion.py:162 | missing or empty hours mean `range(24)`; otherwise the hours given |
| `FlowIngestion.DownloadTargets` | flow/f_ingestion.py:163-167 | returns the target paths in order, and the host becomes `FetchAll` of the targets |
| `FlowIngestion.DownloadRawDay` | flow/f_ingestion.py:161-167 | returns the day's paths for the hours, and the host becomes `FetchAll` of the day's targets |
| `FlowIngestion.WriteDfToCsv` | flow/f_ingestion.py:91-113 | with `no_write` only the CSV path is returned; otherwise the frame is written there, or the read error is returned and nothing changes |
| `FlowIngestion.GetCsvPath` | flow/f_ingestion.py:132-136 | both branches behave as `write_df_to_csv` |
| `FlowIngestion.GetCsvPathPeriod` | flow/f_ingestion.py:170-176 | the files become `ExportAll`, and on success the result is the CSV paths in order |
| `FlowIngestion.ExportAllNoWrite` | flow/f_ingestion.py:108 | with `no_write` the export writes nothing and never fails |
| `FlowIngestion.ExportAllKeeps` | flow/f_ingestion.py:170-176 | exports write only to their CSV paths |
| `FlowIngestion.DumpRowsReadable` | flow/f_ingestion.py:170-176 | the dumps' rows exist exactly when every dump yields a frame |
| `FlowIngestion.DumpRowsLocal` | flow/f_ingestion.py:170-176 | the dumps' rows depend only on the dump files |
| `FlowIngestion.ExportAllFrames` | flow/f_ingestion.py:170-176 | for separate exports, exporting succeeds exactly when every dump reads, and the CSV files then hold the dumps' rows in order |
| `FlowIngestion.CreateTable` | flow/f_ingestion.py:151-158 | on a readable first dump the table is dropped if present and recreated empty; otherwise the read error and no change |
| `FlowIngestion.CopyFromCsv` | flow/f_ingestion.py:115-130 | the catalog becomes `Append`, or is unchanged with the error |
| `FlowIngestion.CopyFromCsvDay` | flow/f_ingestion.py:179-181 | the catalog and error are `AppendAll` of the files in order |
| `FlowIngestion.ExportAndCopyRows` | flow/f_ingestion.py:203-204 | into an empty table, a successful export and copy puts exactly the CSV files' rows |
| `FlowIngestion.CsvRowsThenAppend` | flow/f_ingestion.py:179-181 | appending to an emptied table succeeds exactly when every file reads, and then holds their rows |
| `FlowIngestion.ExportAndCopyFrames` | flow/f_ingestion.py:202-204 | for separate exports into an empty table, success exactly when every dump reads, and the table then holds the dumps' rows |
| `FlowIngestion.FirstDumpFails` | flow/f_ingestion.py:151 | a dump whose first 100 lines cannot be read cannot be read in full |
| `FlowIngestion.LoadRows` | flow/f_ingestion.py:202-204 | for separate exports, the load succeeds exactly when every dump reads, and the table then holds the dumps' rows in order; an unreadable first dump changes nothing |
| `FlowIngestion.LoadStopsEarly` | flow/f_ingestion.py:151-158 | an unreadable first dump stops the load with an error, files and catalog unchanged |
| `FlowIngestion.LoadBrokenTail` | flow/f_ingestion.py:151-158 | a first dump whose name parses and whose rejected part comes after at least 100 good lines (so the 100-line read succeeds and the full read fails) leaves the table dropped and recreated empty, no CSV written, and that dump's `ParserError` |
| `FlowIngestion.CopyIntoEmptied` | flow/f_ingestion.py:203-204 | export and copy into the emptied table succeed exactly when every dump reads, and the table then holds the dumps' rows |
| `FlowIngestion.LoadDay` | flow/f_ingestion.py:202-204 | files, catalog and error after create, export and copy are `Load` of the old ones |
| `FlowIngestion.Ingest` | flow/f_ingestion.py:184-205 | the host's requests are those of `FetchAll` of the day's targets, and files, catalog and error are `Load` of the downloaded tree |
| `FlowIngestion.DefaultDaySeparate` | flow/f_ingestion.py:170-176 | the default 24 hours of a day never share a CSV file |
| `FlowIngestion.DefaultDayRows` | flow/f_ingestion.py:162-204 | loading a day's default 24 downloaded dumps succeeds exactly when every one reads, and the table then holds their rows in hour order |
| `Ingestion.DataframeMatchesFlow` | ingestion.py:45-68 | this reader fails on the same files with the same error as the flow's, and its rows are the flow's rows with the insert time in front |
| `Ingestion.DownloadFile` | ingestion.py:23-43 | returns the raw path, and the host becomes `Fetch` with that path and URL |
| `Ingestion.DownloadRawDay` | ingestion.py:115-120 | returns the 24 paths of the day, and the host becomes `FetchAll` of its 24 targets |
| `Ingestion.DayOf24Hours` | ingestion.py:115-120 | the day's paths are 24, the `h`-th being the raw path of hour `h` |
| `Ingestion.WriteIfAbsentKeeps` | ingestion.py:76-84 | after the export the path exists; existing files, including the target, are kept; only the target can appear, holding the frame; a second export changes nothing |
| `Ingestion.WriteToCsv` | ingestion.py:70-84 | returns the CSV path and writes the frame there only when the file is absent |
| `Ingestion.CreatePolicyCases` | ingestion.py:86-103 | the table exists afterwards; it is empty when it was absent or `replace` is set, and keeps its rows otherwise; no other table changes |
| `Ingestion.CreatePolicySettles` | ingestion.py:86-103 | once the policy has run, running it again without `replace` changes nothing |
| `Ingestion.CreateTable` | ingestion.py:86-103 | the catalog becomes the policy applied to the old one |
| `Ingestion.GenerateCsv` | ingestion.py:122-126 | files, catalog and error are `Generate` of the old ones, and the result is the CSV path |
| `Ingestion.GenerateNext` | ingestion.py:130-134 | one loop step, with its own clock reading: on success the day's outcome equals that of the remaining files and readings with `replace` off |
| `Ingestion.GenerateCsvDay` | ingestion.py:128-135 | files, catalog and error are `GenerateAll`, the i-th file stamped with the i-th clock reading; on success the CSV paths in order; `replace` is passed to the first file only |
| `Ingestion.GenerateAllSettled` | ingestion.py:128-135 | without `replace` an existing table keeps its rows through the whole day |
| `Ingestion.GenerateAllTable` | ingestion.py:128-135 | the day's catalog is the policy applied once, or the first file's error stops everything |
| `Ingestion.GenerateAllEmpties` | ingestion.py:146 | with `replace=True`, a successful day leaves the table empty before copying |
| `Ingestion.GenerateAllKeeps` | ingestion.py:128-135 | no existing file is changed by a day's exports |
| `Ingestion.GenerateAllFirstFile` | ingestion.py:122-135 | a readable first file whose CSV is absent gets the frame stamped with the first clock reading |
| `Ingestion.IngestDay` | ingestion.py:142-148 | the host becomes `FetchAll` of the day's targets, then `GenerateAll` with `replace=True` into `pageview_raw_YYYYMMDD`, one clock reading per file, then `AppendAll` of the CSV paths |
| `Ingestion.DayRows` | ingestion.py:146-147 | a successful day leaves the table holding exactly the CSV files' rows |
| `FlowTransformation.PlanStatements` | flow/f_transformation.py:37-58 | the six statements are exactly the scripts with their replacements, in order; the domain step uses the aggregated table |
| `FlowTransformation.TokensBracketed` | flow/f_transformation.py:46-58 | the four placeholders are bracketed tokens |
| `FlowTransformation.StepFilled` | flow/f_transformation.py:45-58 | one statement keeps no placeholder of its step and no `[` |
| `FlowTransformation.StatementsFilled` | flow/f_transformation.py:41-58 | every statement of fitting steps comes out filled |
| `FlowTransformation.PlanClearsTokens` | flow/f_transformation.py:37-58 | when each script's `[` characters open only tokens of a given set and no table name holds a `[`, no statement keeps its step's placeholders, and every `[` left opens one of the set's other tokens |
| `FlowTransformation.PlanFilled` | flow/f_transformation.py:37-58 | the case where each script's only tokens are its own placeholders: no statement keeps a placeholder or any `[` |
| `FlowTransformation.Transformation` | flow/f_transformation.py:27-60 | the tables are unchanged, the journal gains the session of the six-statement plan, and the result says whether it committed |
| `Testing.CompareCases` | testing.py:5-18 | the comparison fails exactly when the path does not parse; it passes exactly when the file exists with the reported size, so a missing file never passes |
| `Testing.CheckedPathIsRawPath` | testing.py:25 | the path the check builds is the raw path the download writes to |
| `Testing.ParseRawPath` | testing.py:8 | a raw path parses back to its date and hour |
| `Testing.RemoteUrlOfRawPath` | testing.py:8-11 | the URL the check rebuilds from a raw path is the download URL of that dump |
| `Testing.CompareRawPath` | testing.py:5-25 | for a dump of a valid date, the check passes exactly when the local copy has the size reported for its download URL |
| `Testing.CheckHours` | testing.py:24-26 | hours 0 to 23 in order: all verdicts when every check runs, each verdict that hour's; otherwise the error of the first failing hour |
| `Testing.CheckFileContent` | testing.py:20-26 | the verdicts for the day's 24 paths, each the comparison of that hour, or the error of the first path that does not parse |
| `FlowMain.TargetDateLag` | sql/flow/f_main.py:7 | the target date exists unless today is one of the first two calendar days; it is valid, two day numbers earlier, and two days later is today |
| `FlowMain.TargetDateExamples` | sql/flow/f_main.py:7 | illustration only, four concrete dates: across a leap day, a month end and a year end the target is the expected date |
| `FlowMain.NamesDistinct` | sql/flow/f_main.py:9-11 | the raw, aggregated and destination tables are three different tables |
| `FlowMain.DayTablesInjective` | sql/flow/f_main.py:9-10 | for valid dates the raw name and the aggregated name each determine the day |
| `FlowMain.RunFlow` | sql/flow/f_main.py:5-13 | an overflowing date changes nothing; otherwise the host and catalog become the download and load of the target day into the raw table, an ingestion error stops the run, and the journal gains the transformation session, whose commit is the absence of error |

## Left out

- The network: `requests.get` and `requests.head` are the parameters `remote`. Streaming, HTTP errors and a missing `content-length` header are not modelled.
- `os.path.getsize` is the parameter `size`. `int(...)` on the header is not modelled.
- pandas: dump parsing is a `Body`: the typed lines the reader gets through, and whether they are the whole file. Which malformed input makes pandas stop is not modelled, only where it stops. The fallback from the C engine to the Python engine, and the replacement of `""` by NaN, are not modelled because they do not change which rows exist.
- pandas `get_schema`: the frame only supplies a schema, and table columns are not modelled.
- CSV formatting: `to_csv` header and chunking, and the header line `copy_from_csv` reads with `next(f)`, are not modelled. A CSV file is its frame.
- psycopg2: the JSON connection file, `get_connection`, cursors and closing are not modelled. Transactions and rollback are not modelled either: the warehouse records table creation, dropping, appends, executed statements and commits.
- SQL semantics: what the six scripts do inside the database is not modelled. Their text is `read`, and refusal is `rejects`. `read` is total: a missing script, for which `Path.read_text()` raises `FileNotFoundError` part-way through the session (after the earlier statements ran, with no commit), is not modelled.
- `Store.ReadDump`: every reader failure other than a missing file is reported as `ParserError(path)`. Python raises other exceptions: `EOFError` for a truncated gzip stream, `gzip.BadGzipFile` for a body that is not gzip, both of which escape the `except pd.errors.ParserError` fallback. An empty file makes pandas raise `EmptyDataError`, whereas the model reads `Lines([], true)` as an empty frame.
- `print` logging, the Prefect `@flow`/`@task` decorators and `mkdir` have no effect on the model.
- The clock: `datetime.today()` is the parameter `today`, and the successive `datetime.now()` readings are the sequence `nows`, one per file. Their values and order are not constrained. The insert time is `strftime(now, "%Y-%m-%d %H:%M:%S")`, modelled as `str(datetime)` of the reading; the two differ for years below 1000, where the C library's `%Y` is not zero-padded.
- `check_file_completeness` (testing.py:28-31) has an empty body and is not modelled.
- `Calendar.Strptime`: reads fields at full width in ASCII digits with literals in the pattern's case (`%Y` four digits, the others two). Python's `strptime` also accepts literals in any case (`PAGEVIEWS-20200601-000000`), non-ASCII Unicode digits and one-digit fields, where the model gives `None`. A year below 1000 is written with fewer digits, and Python then misreads the stem: year 999 gives `pageviews-9990601-000000`, read as 9990-06-01, where the model gives `None`. Lemmas about parsing require a four-digit year.
- `FlowTransformation.PlanClearsTokens`: requires that every `[` of each template opens a bracketed token of the given sets; a template with a stray `[` is not covered. `Text.BracketFreeNamesAreNotEnough` shows that `[`-free names alone do not imply that no placeholder is left.
- `FlowIngestion.Ingest`: stated through `Load`. `FlowIngestion.LoadRows` and `FlowIngestion.DefaultDayRows` give its content when no two dumps share a CSV file; for a list of hours with repeats the model states only `Load`.
- `FlowMain.RunFlow`: when a statement is refused, psycopg2 raises its own error. The model returns `StatementFailed` carrying the first refused statement.
- `copy_from_csv` and `copy_from_csv_day` in ingestion.py (lines 106-113 and 137-139) are the same code as in flow/f_ingestion.py, and are modelled once, in `FlowIngestion`.
- Integer parameters are unbounded; Python's integers are unbounded too.
