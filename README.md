# careplus-pipeline ingestion, modelled in Dafny

The CarePlus pipeline brings two sources into bronze warehouse tables.

- **Logs** (`ingestion/load_logs_to_snowflake.py`).
  - Every `.log` object under the bucket's `logs/` prefix is read.
  - Each file is cut at `---` into blocks.
  - Each non-blank block is decoded by `parse_log_block` into a 12-field row, or rejected.
  - All rows are inserted into `bronze.logs`, but only while that table is still empty. It is a one-shot historical load.
- **Tickets** (`ingestion/load_tickets_to_snowflake.py`).
  - The warehouse's `MAX(created_at)` is the watermark (the high-water mark of what is already loaded).
  - The source table is extracted in full when there is no watermark.
  - Otherwise only rows created after the watermark, cut to the minute, are extracted, in ascending order.
  - A non-empty extract is staged as one CSV object (a header record, then the rows) and copied into `bronze.tickets`.
  - An empty extract stops the run before anything is written.

The modules:

| file | module | what it holds |
|---|---|---|
| `wrappers.dfy` | `Wrappers` | `Option` with the `:-` failure propagation |
| `text.dfy` | `Text` | ASCII whitespace, `str.strip`, `str.split`, joining, decimal digits |
| `calendar.dfy` | `Calendar` | `datetime.strptime` for `%Y-%m-%d %H:%M:%S`, the order of date-times, truncation to the minute |
| `log_patterns.dfy` | `LogPatterns` | the three `re.match` patterns of a log block, plus what Python's `float()` accepts |
| `log_parser.dfy` | `LogParser` | `parse_log_block` |
| `log_loader.dfy` | `LogLoader` | `parse_log_file`, the `.log` loop of `main`, and the empty-table gate of `load_to_snowflake` |
| `tickets.dfy` | `TicketLoader` | the watermark, extraction, staging and the stage-then-load run |

`parse_log_block` is a pure function. The loops of `parse_log_file` and `main` are methods with loop invariants, proved against the functions `FileRows` and `RowsOfObjects`. `ParseLogFile`, the method for `parse_log_file`, stands on its own: it is proved equal to `FileRows`. The collection loop `CollectLogRows` applies the function `ParseFile`, which is that same `FileRows`. The warehouse tables and the object store are classes whose methods change their fields.

Some notes on how the model reads the code:

- **Regular expressions.** Each pattern is a function that computes the match Python's engine settles on. `re.match` anchors only at the start, so text after the match is allowed. A lazy group `(.+?)` takes the shortest length for which the rest of the pattern still matches; `FindLine1` searches lengths in that order. `\S+` is a maximal run of non-space characters. `CPU=(\S+)%` backtracks one character off such a run.
- **Text.** A row's text fields are the captured substrings, kept unchanged. The CPU token is kept as text, and the check that `float()` accepts it is a recogniser, `IsFloatText`. `ResponseTime` goes through `int()`, so `-1ms` gives `-1`.
- **`int()` digit limit.** Python refuses to convert decimal text with more than 4300 digits (its default `sys.get_int_max_str_digits()`) and raises `ValueError`. The `except` turns that into a rejected block. `IntOfText` models this, with the sign not counted as a digit.
- **Watermark truncation: the query's comparison and the formatting disagree.**
  - The query keeps rows with `WHERE created_at > %s` (`ingestion/load_tickets_to_snowflake.py:64`), which reads as "strictly after the watermark".
  - Before that comparison, the watermark is formatted with `%Y-%m-%d %H:%M` (`ingestion/load_tickets_to_snowflake.py:59`), which drops its seconds. MySQL reads that text back as the start of the watermark's minute.
  - The model follows the code: `Extract` compares against `TruncateToMinute(w)`.
  - `SameMinuteRowsExtractedAgain` states the consequence. A row from the watermark's own minute with a positive second is extracted again on the next run. This includes the watermark's own row.
- **Generic decoders.** `SegmentRows`, `FileRows`, `RowsOfObjects` and `CollectLogRows` take the block or file decoder as a parameter. The log methods supply `ParseLogBlock` and `ParseFile`, so the decoder is always `parse_log_block`. The parameter keeps the lemmas about splitting and collecting independent of the decoder's definition.

## Model

| member | source | states |
|---|---|---|
| Text.StripEmptyIff | ingestion/load_logs_to_snowflake.py:84-86 | a segment strips to nothing exactly when it is all whitespace, which is when `if not block` skips it |
| Text.Strip | ingestion/load_logs_to_snowflake.py:84 | the result is empty or starts and ends with a non-space character, and is no longer than the input; `TrimLeft` and `TrimRight` state that only whitespace was removed from each end |
| Text.StripIdempotent | ingestion/load_logs_to_snowflake.py:27 | stripping an already stripped block again (as `parse_log_block` does) changes nothing |
| Text.JoinSplitOn | ingestion/load_logs_to_snowflake.py:80 | joining the parts of `split(sep)` with `sep` gives back the text |
| Text.SplitOnPartsFree | ingestion/load_logs_to_snowflake.py:80 | no part returned by `split(sep)` contains `sep` |
| Text.SplitOn | ingestion/load_logs_to_snowflake.py:80 | `str.split(sep)`, cutting at each occurrence from left to right; there is always at least one part, and `JoinSplitOn`, `SplitOnJoin` and `SplitOnPartsFree` state what the parts are |
| Text.SplitOnJoin | ingestion/load_logs_to_snowflake.py:80 | parts that close cleanly, joined with `sep`, split back into the same parts |
| Calendar.Strptime | ingestion/load_logs_to_snowflake.py:39 | a fixed-width timestamp is accepted exactly when its fields are a real Gregorian date (year 1-9999) and time (hour ≤ 23, minute and second ≤ 59); what it returns is valid |
| Calendar.FormatThenStrptime | ingestion/load_logs_to_snowflake.py:39 | every valid date-time printed as `%Y-%m-%d %H:%M:%S` parses back to itself |
| Calendar.StrptimeThenFormat | ingestion/load_logs_to_snowflake.py:39 | an accepted timestamp printed again is the same text |
| Calendar.Format | ingestion/load_logs_to_snowflake.py:39 | a date-time printed as `%Y-%m-%d %H:%M:%S`, zero-padded; `FormatThenStrptime` and `StrptimeThenFormat` make it the inverse of `Strptime` |
| Calendar.ExampleAccepted | ingestion/load_logs_to_snowflake.py:39 | `2025-07-01 10:15:00` parses to 2025-07-01 10:15:00 |
| Calendar.Feb29Iff | ingestion/load_logs_to_snowflake.py:39 | 29 February of any year from 0001 to 9999 is accepted exactly when the year is a Gregorian leap year |
| Calendar.ExampleLeapYears | ingestion/load_logs_to_snowflake.py:39 | 29 February is accepted in 2024 and 2000, and rejected in 2023 and 1900 |
| Calendar.ExampleBadDate | ingestion/load_logs_to_snowflake.py:39 | month 13 and 31 April are rejected |
| Calendar.ExampleBadTime | ingestion/load_logs_to_snowflake.py:39 | hour 24 and second 60 are rejected |
| Calendar.ExampleYearZero | ingestion/load_logs_to_snowflake.py:39 | year 0000 is rejected |
| Calendar.BeforeIsStrictTotalOrder | ingestion/load_tickets_to_snowflake.py:65 | the order of date-times that `ORDER BY` and `>` use is irreflexive, transitive, total and asymmetric |
| Calendar.TruncateToMinute | ingestion/load_tickets_to_snowflake.py:59 | the watermark printed as `%Y-%m-%d %H:%M` and read back: the same year, month, day, hour and minute, with second 0 |
| Calendar.AfterTruncated | ingestion/load_tickets_to_snowflake.py:58-64 | a date-time is after the watermark cut to the minute exactly when it is after the watermark, or is in the same minute with a positive second no later than the watermark's |
| LogPatterns.FindLine1 | ingestion/load_logs_to_snowflake.py:33 | the two lazy group lengths found make line 1 match, and no pair with a shorter level (or the same level and a shorter service) does; `None` only when no pair fits at all |
| LogPatterns.FindLevel | ingestion/load_logs_to_snowflake.py:33 | the level length found, with its service, fits, and is the least at or after the start of the search |
| LogPatterns.FindService | ingestion/load_logs_to_snowflake.py:33 | the service length found fits, and every fitting length is at least it |
| LogPatterns.MatchLine1Sound | ingestion/load_logs_to_snowflake.py:32-43 | a matched line 1 is its well-formed captured groups spelled out again, followed by a boundary |
| LogPatterns.MatchLine1Complete | ingestion/load_logs_to_snowflake.py:32-43 | well-formed groups (a level without `]`, a service without a space) spelled out match back to exactly those groups |
| LogPatterns.MatchLine1 | ingestion/load_logs_to_snowflake.py:32-35 | the line-1 `re.match`: the groups at the lazy lengths `FindLine1` settles on, `None` when there are none; `MatchLine1Sound` and `MatchLine1Complete` characterise it |
| LogPatterns.KeyToken | ingestion/load_logs_to_snowflake.py:47 | `key(\S+)` captures a non-empty non-space token right after the literal key, ending at a space or the end of the line |
| LogPatterns.KeyNumber | ingestion/load_logs_to_snowflake.py:47 | `ResponseTime=` is followed by an optional `-` and a maximal run of digits |
| LogPatterns.KeyPercent | ingestion/load_logs_to_snowflake.py:47 | `CPU=(\S+)%` captures a non-empty non-space token followed by `%` and then a space or the end |
| LogPatterns.MatchLine2Sound | ingestion/load_logs_to_snowflake.py:46-57 | a matched line 2 is its well-formed captured groups spelled out again, followed by a boundary |
| LogPatterns.MatchLine2Complete | ingestion/load_logs_to_snowflake.py:46-57 | well-formed line-2 groups spelled out match back to exactly those groups |
| LogPatterns.MatchLine2 | ingestion/load_logs_to_snowflake.py:46-49 | the line-2 `re.match`, group by group with `KeyToken`, `KeyNumber` and `KeyPercent`; `MatchLine2Sound` and `MatchLine2Complete` characterise it |
| LogPatterns.FindQuote | ingestion/load_logs_to_snowflake.py:60 | the lazy `(.+?)"` closes at the first quote that leaves at least one character, with no newline, before it; `None` when no quote does |
| LogPatterns.MatchUserAgentIff | ingestion/load_logs_to_snowflake.py:60-61 | `UserAgent="v"` followed by anything captures `v` exactly when `v` is non-empty, has no newline and has no `"` after its first character |
| LogPatterns.MatchUserAgent | ingestion/load_logs_to_snowflake.py:60-61 | the `UserAgent="(.+?)"` match, the text up to the first fitting quote, or `None`; `MatchUserAgentIff` characterises it |
| LogPatterns.LineRun | ingestion/load_logs_to_snowflake.py:64 | `(.+)` runs to the first newline or the end of the text |
| LogPatterns.MatchTraceIdIff | ingestion/load_logs_to_snowflake.py:64-65 | a single line yields trace id `v` exactly when it is `TraceID=` followed by `v`, with `v` non-empty |
| LogPatterns.MatchTraceId | ingestion/load_logs_to_snowflake.py:64-65 | the `TraceID=(.+)` match, the rest of the line when it is non-empty, or `None`; `MatchTraceIdIff` characterises it |
| LogPatterns.DecimalIsFloat | ingestion/load_logs_to_snowflake.py:55 | `digits.digits` is accepted by `float()` |
| LogPatterns.IntegerIsFloat | ingestion/load_logs_to_snowflake.py:55 | a run of digits is accepted by `float()` |
| LogPatterns.FloatTextChars | ingestion/load_logs_to_snowflake.py:55 | a numeric token (not inf or nan) accepted by `float()` consists of digits, `.`, `_`, signs and `e`/`E` only |
| LogPatterns.StrayCharIsNotFloat | ingestion/load_logs_to_snowflake.py:55 | a token with any other character, that is not an inf or nan word, is rejected by `float()` |
| LogPatterns.ExampleNotFloat | ingestion/load_logs_to_snowflake.py:55 | `n/a` and `abc` are rejected by `float()` |
| LogPatterns.IsFloatText | ingestion/load_logs_to_snowflake.py:55 | the texts `float()` accepts: an optional sign, then `inf`, `infinity` or `nan` in any case, or a numeral with underscores only between digits and an optional exponent; the lemmas above state its consequences |
| LogParser.BlockLines | ingestion/load_logs_to_snowflake.py:27 | every kept line is non-empty, stripped and free of newlines |
| LogParser.BlockLinesOfJoin | ingestion/load_logs_to_snowflake.py:27 | non-empty stripped newline-free lines joined by newlines come back as the same lines |
| LogParser.SignedTextValue | ingestion/load_logs_to_snowflake.py:54 | a printed integer, negative ones included, has the integer as its value; `int()` gives it back exactly when its magnitude is below 10^4300 and raises otherwise |
| LogParser.SignedValue | ingestion/load_logs_to_snowflake.py:54 | the value of a `-?\d+` group with its sign kept; `SignedTextValue` makes it the inverse of printing |
| LogParser.IntOfText | ingestion/load_logs_to_snowflake.py:54 | `int()` of the response-time group: its value, or a refusal past 4300 digits; `SignedTextValue` states when it gives back a printed number |
| LogParser.ParseLinesAcceptsIff | ingestion/load_logs_to_snowflake.py:27-57 | a block is accepted exactly when it has at least five lines, line 1 matches with a real date-time, line 2 matches with a response time of at most 4300 digits and a CPU token that passes `float()`; lines 3 and 5 never reject |
| LogParser.ParsedRowIsCapturedText | ingestion/load_logs_to_snowflake.py:39-71 | every field of an accepted row is the captured text unchanged (level and error stay raw), the response time is the signed value of its digits, and user agent and trace id are the optional matches of lines 3 and 5 |
| LogParser.ParseRenderedLines | ingestion/load_logs_to_snowflake.py:32-71 | lines built from well-formed groups decode to the row of exactly those groups |
| LogParser.ParseLinesReadsOnlyFour | ingestion/load_logs_to_snowflake.py:59-65 | two line lists of at least five lines that agree on lines 1, 2, 3 and 5 give the same outcome: line 4 and extra lines are never read |
| LogParser.ParseFiveCleanLines | ingestion/load_logs_to_snowflake.py:27 | five non-empty stripped lines joined by newlines are decoded as those five lines |
| LogParser.ExampleBlock | ingestion/load_logs_to_snowflake.py:24-71 | the sample block (any fourth line) decodes to (2025-07-01 10:15:00, ERROR, billing-service, T1001, S55, 10.0.0.5, -1, 87.5, timeout, true, Mozilla/5.0, abc123) |
| LogParser.ParseLogBlock | ingestion/load_logs_to_snowflake.py:24-75 | `parse_log_block`: the block's stripped non-blank lines, decoded by `ParseLines`; its behaviour is stated by `ParseLinesAcceptsIff`, `ParsedRowIsCapturedText`, `ParseRenderedLines` and `ParseFiveCleanLines` |
| LogParser.ParseLines | ingestion/load_logs_to_snowflake.py:28-71 | fewer than five lines are rejected, otherwise lines 1, 2, 3 and 5 go to `ParseFields`; `ParseLinesReadsOnlyFour` states that line 4 is never read |
| LogParser.ParseFields | ingestion/load_logs_to_snowflake.py:32-71 | the two required matches, the date check, `int()` and `float()` in the source's order, then the twelve-field row; `ParseLinesAcceptsIff` and `ParsedRowIsCapturedText` characterise it |
| LogLoader.RowOfBlank | ingestion/load_logs_to_snowflake.py:84-87 | an all-whitespace segment contributes nothing; any other is decoded after stripping |
| LogLoader.Outcomes | ingestion/load_logs_to_snowflake.py:83-89 | one outcome per block of the split, in order, each that block stripped and decoded (nothing for a blank one) |
| LogLoader.DecodeBlocks | ingestion/load_logs_to_snowflake.py:81-91 | the loop returns the rows of the non-blank segments that decode, in segment order |
| LogLoader.ParseLogFile | ingestion/load_logs_to_snowflake.py:78-91 | the rows of a file are those of its `---` segments decoded by `parse_log_block` |
| LogLoader.FileRows | ingestion/load_logs_to_snowflake.py:78-91 | the rows `parse_log_file` returns: its `---` segments' outcomes, keeping the successes in order; `FileRowsOfJoin` and the `SegmentRows` lemmas state them |
| LogLoader.ParseFile | ingestion/load_logs_to_snowflake.py:146 | `parse_log_file` as `main` applies it, which is `FileRows` with `parse_log_block` |
| LogLoader.SegmentRowsMembership | ingestion/load_logs_to_snowflake.py:83-89 | a row is returned exactly when some segment decodes to it |
| LogLoader.SegmentRowsAtMostNonBlank | ingestion/load_logs_to_snowflake.py:83-89 | there are never more rows than non-blank segments |
| LogLoader.SegmentRowsAppend | ingestion/load_logs_to_snowflake.py:83-89 | the rows of two runs of segments are the rows of each, in order: a segment's outcome does not depend on its neighbours |
| LogLoader.RejectedSegmentIgnored | ingestion/load_logs_to_snowflake.py:87-89 | a rejected segment leaves the rows of the others exactly as they would be without it |
| LogLoader.RepeatedBlockKept | ingestion/load_logs_to_snowflake.py:79-89 | a block repeated twice yields its row twice: there is no deduplication |
| LogLoader.FileRowsOfJoin | ingestion/load_logs_to_snowflake.py:80-91 | a file written as blocks joined by `---` (none containing `---` or ending in `-`) yields the rows of exactly those blocks |
| LogLoader.LogKeys | ingestion/load_logs_to_snowflake.py:137-138 | every object kept from a page has a key ending in `.log` |
| LogLoader.LogKeysMembership | ingestion/load_logs_to_snowflake.py:134-138 | an object is kept from a page exactly when it is on the page and its key ends in `.log` |
| LogLoader.LogObjects | ingestion/load_logs_to_snowflake.py:133-138 | every object handed to the parser has a key ending in `.log` |
| LogLoader.LogObjectsMembership | ingestion/load_logs_to_snowflake.py:133-138 | an object is parsed exactly when its key ends in `.log` and it is on some page |
| LogLoader.OtherKeySkipped | ingestion/load_logs_to_snowflake.py:137-138 | an object whose key does not end in `.log` is skipped, wherever it is listed |
| LogLoader.RowsOfObjectsAppend | ingestion/load_logs_to_snowflake.py:148 | the rows of two runs of files are the rows of each, one after the other |
| LogLoader.RowsOfObjects | ingestion/load_logs_to_snowflake.py:146-148 | the rows of a run of files, each file's rows in turn; `RowsOfObjectsAppend` states the concatenation |
| LogLoader.CollectLogRows | ingestion/load_logs_to_snowflake.py:125-149 | the loops return every `.log` file's rows, concatenated in listing order, and count exactly the `.log` files |
| LogLoader.LoadGate | ingestion/load_logs_to_snowflake.py:99-116 | a non-empty table is left unchanged; an empty one receives the batch |
| LogLoader.SecondLoadIsNoOp | ingestion/load_logs_to_snowflake.py:99-106 | once a load left the table non-empty, a further load changes nothing |
| LogLoader.LogSink.LoadOnce | ingestion/load_logs_to_snowflake.py:94-117 | rows are inserted, in order, exactly when `COUNT(*)` was zero; the table becomes `LoadGate` of the old table and the batch |
| LogLoader.RunLogIngestion | ingestion/load_logs_to_snowflake.py:123-154 | the log table ends as the gate applied to the rows of every `.log` file in listing order; the file count is the number of `.log` objects |
| TicketLoader.MaxCreatedAtIsMaximum | ingestion/load_tickets_to_snowflake.py:38-39 | the watermark is absent exactly when every `created_at` is NULL; otherwise it is some row's `created_at` and no row's is later |
| TicketLoader.MaxCreatedAt | ingestion/load_tickets_to_snowflake.py:38-39 | `MAX(created_at)`, a scan that ignores NULLs; `MaxCreatedAtIsMaximum` proves it is the maximum |
| TicketLoader.NotAfterIsTotalPreorder | ingestion/load_tickets_to_snowflake.py:65 | `ORDER BY created_at` (NULL first) is reflexive, total and transitive |
| TicketLoader.SortByCreatedAtIsSorting | ingestion/load_tickets_to_snowflake.py:65 | the ordered extract is ascending by `created_at` and holds the same rows the same number of times |
| TicketLoader.SortByCreatedAt | ingestion/load_tickets_to_snowflake.py:65 | `ORDER BY created_at` as a stable insertion sort; `SortByCreatedAtIsSorting` proves it sorts |
| TicketLoader.NewerThanMembership | ingestion/load_tickets_to_snowflake.py:64 | `WHERE created_at > cutoff` keeps each row as often as it occurs when it is newer than the cutoff, and never otherwise (NULL is never newer) |
| TicketLoader.NewerThan | ingestion/load_tickets_to_snowflake.py:64 | `WHERE created_at > cutoff`, keeping table order; `NewerThanMembership` states which rows are kept |
| TicketLoader.FullLoadTakesEverything | ingestion/load_tickets_to_snowflake.py:68-69 | without a watermark the extract is the whole table, unfiltered and in table order |
| TicketLoader.Extract | ingestion/load_tickets_to_snowflake.py:58-69 | the rows `extract_from_mysql` returns: the whole table without a watermark, otherwise the sorted rows after the watermark cut to the minute; `FullLoadTakesEverything` and `IncrementalExtract` state them |
| TicketLoader.IncrementalExtract | ingestion/load_tickets_to_snowflake.py:58-67 | with a watermark the extract is ascending, and a row is in it (as often as in the table) exactly when its `created_at` is after the watermark cut to `%Y-%m-%d %H:%M` |
| TicketLoader.LaterRowsExtracted | ingestion/load_tickets_to_snowflake.py:58-67 | every row created strictly after the watermark is extracted |
| TicketLoader.SameMinuteRowsExtractedAgain | ingestion/load_tickets_to_snowflake.py:58-59 | a row in the watermark's minute with a positive second, the watermark's own row included, is extracted again |
| TicketLoader.EarlierRowsNotExtracted | ingestion/load_tickets_to_snowflake.py:61-67 | NULL rows and rows at or before the start of the watermark's minute are never extracted |
| TicketLoader.NothingNewExtractsNothing | ingestion/load_tickets_to_snowflake.py:58-67 | when no source row is after the start of the watermark's minute, the extract is empty |
| TicketLoader.ColumnNames | ingestion/load_tickets_to_snowflake.py:72 | one column name per description entry, in order, each that entry's name |
| TicketLoader.ExtractFromSource | ingestion/load_tickets_to_snowflake.py:53-78 | returns the column names and the extract for the watermark it was given |
| TicketLoader.StagedRecords | ingestion/load_tickets_to_snowflake.py:88-91 | the staged file has one record more than there are rows: the header first, then record `k + 1` is row `k` |
| TicketLoader.ObjectStore.Put | ingestion/load_tickets_to_snowflake.py:94-98 | the key is overwritten with the records and every other key is unchanged |
| TicketLoader.UploadToStore | ingestion/load_tickets_to_snowflake.py:82-101 | returns false and writes nothing exactly when there are no rows; otherwise the fixed key `tickets/support_tickets.csv` is overwritten with the header and the rows, in order, and it returns true |
| TicketLoader.Warehouse.LastLoadedTimestamp | ingestion/load_tickets_to_snowflake.py:33-49 | returns `MAX(created_at)` of the table, `None` when there is no non-NULL value |
| TicketLoader.Warehouse.LoadFromStage | ingestion/load_tickets_to_snowflake.py:105-153 | appends what the copy admits from the staged records and changes nothing else |
| TicketLoader.RunTicketIngestion | ingestion/load_tickets_to_snowflake.py:157-165 | load happens exactly when the upload happened, which is exactly when the extract is non-empty; an empty extract changes neither the store nor the warehouse; otherwise the store holds the staged header and rows and the warehouse gains what the copy admits from them |

## Left out

- The network I/O and foreign services are left out: the boto3 client, the S3 paginator, `get_object` and `put_object`, and the Snowflake and MySQL connectors. The bucket listing is a parameter: a sequence of pages of (key, text) objects. The stores are classes over sequences and maps.
- SQL text is not modelled, nor is `CREATE STAGE`. `MAX`, `WHERE >` and `ORDER BY` are modelled by the functions `MaxCreatedAt`, `NewerThan` and `SortByCreatedAt`.
- `COPY INTO` semantics (`SKIP_HEADER`, `NULL_IF`, `ON_ERROR = CONTINUE`) are the warehouse's behaviour, not code in the repository. `LoadFromStage` takes them as the parameter `copy`, applied to the staged records.
- `csv.writer` quoting and line endings are library behaviour. A staged file is its sequence of records, and a ticket row carries its cells as the text the writer writes.
- The floating-point value of `cpu_percent` is not modelled. The row keeps the raw token; only the reject condition of `float()` is modelled, by `IsFloatText`.
- Python's Unicode meanings of `\d`, `\S` and `str.strip` are not modelled. The model uses ASCII digits and ASCII whitespace.
- The UTF-8 decoding of an object's body is left out. An object's body is already text.
- Environment and credential configuration (`os.getenv`, `load_dotenv`) is left out, and so is every `print`, including the warning printed on a skipped block.
- The `try`/`except` of `parse_log_block` is not modelled as such. Each thing that can raise inside it (`strptime`, `int` past its digit limit, `float`) is modelled as a reject, so no exception reaches the caller.
- LogParser.IntOfText: the digit limit is fixed at the default 4300. Changing it with `PYTHONINTMAXSTRDIGITS` or `sys.set_int_max_str_digits` is not modelled. Nor are Python versions that have no limit (releases before 3.11, 3.10.7, 3.9.14, 3.8.14 and 3.7.14).
- The order of rows with equal `created_at` under `ORDER BY` is unspecified in SQL. The model uses a stable insertion sort and proves only order and permutation.
- The order of `SELECT * FROM support_tickets` without `ORDER BY` is taken to be table order.
- Connection cleanup, commits and concurrent runs are not modelled.
- `airflow/dags/careplus_pipeline.py` is not part of this model. It is scheduler configuration with no logic of its own.
- `ingestion/upload_logs_to_s3.py` is not part of this model. It is a local directory listing plus uploads.
- LogLoader.CollectLogRows: the file decoder is a parameter, and the loop applies it as a function rather than calling the method `ParseLogFile`. `RunLogIngestion` passes `ParseFile`, the function `ParseLogFile` is proved equal to.
