# CSV upload insert builder

This project models the part of the CSV upload handler (`UploadHandler` in
`pkg/controllers/FileUploadController.go`) that turns the parsed CSV records into
database inserts. It starts once the records are parsed and the project id is
known:

1. Every cell of the first record (the header row) loses its spaces, periods and
   question marks. The cleaned cells are written back into that record, because
   `headers` is the first record itself and not a copy.
2. A placeholder list is built by repeating `"?, "` once per column and trimming
   the trailing commas and spaces.
3. Each header is quoted with backticks.
4. One statement is built:
   `INSERT INTO datapoints (projectID, <quoted headers>) VALUES (?, <placeholders>)`.
5. The statement is prepared once. It is then executed once per record, with the
   project id followed by the record's cells, and the handler stops at the first
   failed execution. Success is answered with status 200 and the JSON envelope
   carrying "Data inserted successfully". A database error is answered with
   status 500 and the error text as plain text.

There are four modules:

- `GoStrings` models the `strings` functions the handler calls: `ReplaceAll` of
  one character, `Repeat`, `TrimRight` and `Join`. It adds `Count` and a
  `Split` on `", "`, which serve as partners of those functions.
- `HeaderSanitizer` models the header cleaning: the pure function, and the
  in-place loop over the first record.
- `InsertBuilder` models the placeholders, the quoting and the statement text.
- `UploadIngest` models the parameter vectors, the insert loop and the reply.

The database is an input:

- `prepareOk` says whether `Prepare` succeeds.
- The oracle `accept(k, values)` says whether execution number `k` (from 0)
  with parameters `values` succeeds.
- `dbError` is the error text the database gives when it fails.

`attempted` lists the parameter vectors of the executions made, in order. It
includes the one that failed.

Where the code and its own description differ, the model follows the code:

- The comment on line 102 says spaces become underscores. The code deletes them.
- Record 0 names the columns (lines 100-118), yet the loop on line 128 runs over
  every record, so the cleaned header row is also inserted as the first data
  row. This is evidently unintended (see "## Findings").
- The code does not check the header row's width. A zero-width header row would
  give `INSERT INTO datapoints (projectID, ) VALUES (?, )`
  (`InsertBuilder.EmptyHeaderQuery`). Go's CSV reader never returns a
  zero-field record, so this cannot happen in practice.
- The model reports the index of the failed execution. The handler itself reports
  only the database's error text with status 500.

## Model

| member | source | states |
|---|---|---|
| `GoStrings.RemoveAll` | pkg/controllers/FileUploadController.go:103-105 | deleting a character never lengthens the string; every remaining character was in the input, and none is the deleted one |
| `GoStrings.RemoveAllAppend` | pkg/controllers/FileUploadController.go:103-105 | deleting a character distributes over concatenation |
| `GoStrings.TrimRight` | pkg/controllers/FileUploadController.go:110 | the result is a prefix of the input that does not end in a cutset character; everything cut off is in the cutset |
| `GoStrings.Repeat` | pkg/controllers/FileUploadController.go:110 | definition of `strings.Repeat`; its properties for the placeholder unit are stated by `InsertBuilder.RepeatIsMarks` and `InsertBuilder.PlaceholdersAreMarks` |
| `GoStrings.Join` | pkg/controllers/FileUploadController.go:118 | definition of `strings.Join`; its properties are stated by `GoStrings.CountJoin` and `GoStrings.SplitJoin` |
| `GoStrings.CountJoin` | pkg/controllers/FileUploadController.go:118 | joining with a separator that lacks `c` adds no `c`: the occurrences in the join are those in the pieces |
| `GoStrings.SplitJoin` | pkg/controllers/FileUploadController.go:118 | joining space-free pieces with ", " and splitting at ", " gives the same pieces back |
| `HeaderSanitizer.Sanitize` | pkg/controllers/FileUploadController.go:103-105 | a cleaned header holds no space, period or question mark and is no longer than the original |
| `HeaderSanitizer.SanitizeIsKeepSafe` | pkg/controllers/FileUploadController.go:103-105 | the three deletion passes equal one left-to-right pass that drops exactly the three characters |
| `HeaderSanitizer.SanitizeSubsequence` | pkg/controllers/FileUploadController.go:103-105 | the cleaned header is a subsequence of the original: characters are only deleted, order is kept |
| `HeaderSanitizer.SanitizeCount` | pkg/controllers/FileUploadController.go:103-105 | each of the three characters occurs zero times afterwards; every other character, a backtick included, keeps its number of occurrences |
| `HeaderSanitizer.SanitizeFixedPoint` | pkg/controllers/FileUploadController.go:103-105 | a header is unchanged exactly when it holds none of the three characters |
| `HeaderSanitizer.SanitizeIdempotent` | pkg/controllers/FileUploadController.go:103-105 | cleaning twice is cleaning once |
| `HeaderSanitizer.SanitizeJoinsWords` | pkg/controllers/FileUploadController.go:103-105 | one deleted character between two clean words just disappears; the words are joined with no underscore |
| `HeaderSanitizer.SanitizeDottedName` | pkg/controllers/FileUploadController.go:103-105 | "A.B C" becomes "ABC" |
| `HeaderSanitizer.SanitizeKeepsBacktick` | pkg/controllers/FileUploadController.go:103-105 | "a\` b" becomes "a\`b": a backtick survives cleaning |
| `HeaderSanitizer.SanitizeAll` | pkg/controllers/FileUploadController.go:101-107 | the cleaned header row keeps its length, and every cell in it is clean |
| `HeaderSanitizer.SanitizeHeaderRow` | pkg/controllers/FileUploadController.go:100-107 | `headers` is the first record itself; afterwards it holds, position by position, the cleaned original cells; every other record is unchanged |
| `InsertBuilder.Placeholders` | pkg/controllers/FileUploadController.go:109-110 | definition of the placeholder list; its properties are stated by `InsertBuilder.PlaceholdersAreMarks` |
| `InsertBuilder.RepeatIsMarks` | pkg/controllers/FileUploadController.go:110 | repeating "?, " `n >= 1` times gives `n` question marks joined by ", ", followed by one more ", " (the part `TrimRight` removes) |
| `InsertBuilder.PlaceholdersAreMarks` | pkg/controllers/FileUploadController.go:109-110 | the placeholder list is exactly `n` question marks joined by ", ": `n` question marks, the empty string only for `n == 0`, and otherwise it ends in `?` (no trailing comma or space) |
| `InsertBuilder.Escape` | pkg/controllers/FileUploadController.go:115 | definition of the backtick quoting; its properties are stated by `InsertBuilder.EscapeHeaders` and `InsertBuilder.ColumnListReadBack` |
| `InsertBuilder.Statement` | pkg/controllers/FileUploadController.go:118 | definition of the `fmt.Sprintf` text; its properties are stated by `InsertBuilder.StatementMarks` and `InsertBuilder.QueryShape` |
| `InsertBuilder.InsertQuery` | pkg/controllers/FileUploadController.go:109-118 | definition of the statement built from a header row; its properties are stated by `InsertBuilder.QueryShape`, `InsertBuilder.QueryPlaceholderCount` and `InsertBuilder.ColumnListReadBack` |
| `InsertBuilder.EscapeHeaders` | pkg/controllers/FileUploadController.go:113-116 | the quoted list has one entry per header, and entry `i` is header `i` in backticks |
| `InsertBuilder.QueryShape` | pkg/controllers/FileUploadController.go:109-118 | for a non-empty header row the statement lists `projectID` and the quoted headers, in order, joined by ", ", and then `n + 1` placeholders, one per named column |
| `InsertBuilder.EmptyHeaderQuery` | pkg/controllers/FileUploadController.go:109-118 | with no header cell the statement keeps both dangling separators |
| `InsertBuilder.StatementMarks` | pkg/controllers/FileUploadController.go:118 | the statement holds the placeholders of its two lists plus the one for `projectID` |
| `InsertBuilder.QueryPlaceholderCount` | pkg/controllers/FileUploadController.go:100-118 | the statement built from the cleaned header row has exactly one `?` per header cell plus one |
| `InsertBuilder.ColumnListReadBack` | pkg/controllers/FileUploadController.go:100-118 | the column list of the cleaned header row splits at ", " back into `projectID` followed by each cleaned header in backticks, position by position |
| `UploadIngest.RowParams` | pkg/controllers/FileUploadController.go:129-134 | a parameter vector has one entry more than the record, and the project id comes first |
| `UploadIngest.RowParamsReadBack` | pkg/controllers/FileUploadController.go:129-134 | after the project id, the vector's cell texts are exactly the record's cells, in cell order |
| `UploadIngest.RowValues` | pkg/controllers/FileUploadController.go:129-134 | the vector built by `append` is the project id followed by the record's cells |
| `UploadIngest.ParamsFillStatement` | pkg/controllers/FileUploadController.go:109-134 | a record as wide as the header row gives a vector as long as the statement's number of placeholders |
| `UploadIngest.InsertRows` | pkg/controllers/FileUploadController.go:128-141 | executions follow record order, one per record, each with that record's vector. Success means every record was executed and every execution succeeded. A failure at `i` means records `0..i-1` succeeded, `i` failed, and nothing after `i` was attempted |
| `UploadIngest.Respond` | pkg/controllers/FileUploadController.go:121-149 | definition of the reply for each way the handler ends: a successful run gets the JSON envelope with status 200 and the success message; a failed prepare or execution gets status 500 and the error text plus a newline as plain text. `UploadIngest.UploadRecords` ties it to the run |
| `UploadIngest.UploadRecords` | pkg/controllers/FileUploadController.go:100-149 | the first record is cleaned in place and the others are untouched. The statement is the one built from the cleaned header row. A failed prepare executes nothing. Otherwise the executions are as for `InsertRows` over all records, header first, and every vector fills exactly the statement's placeholders. The reply has status 200, and is JSON, exactly when the prepare and every record's execution succeeded |
| `UploadIngest.HeaderRowIsInserted` | pkg/controllers/FileUploadController.go:100-141 | an upload whose database accepts everything succeeds with one execution more than there are data records, and the first execution carries the project id and the cleaned header cells |
| `UploadIngest.InsertDataRows` | pkg/controllers/FileUploadController.go:128-141 | corrected loop: execution `k` carries data record `k + 1`; success means every data record, and only those, went in |

## Left out

- Multipart form parsing, the 32 MiB limit and `FormFile` (lines 33-45): HTTP
  library input.
- The temporary file: its name from the wall clock, and the directory
  creation, file creation, copy and reopen (lines 48-79). These are file system
  I/O and time.
- `csv.NewReader(...).ReadAll()` (lines 81-86): a library reader. Its output is
  the model's input `records`. The model requires a non-empty list of distinct,
  equally wide row arrays: the reader allocates each record separately and
  rejects ragged rows, and `records[0]` on line 100 would panic on an empty
  list.
- `strconv.Atoi` of the URL parameter (lines 92-97): `projectID` is an `int`
  parameter.
- `database.GetDB`, `db.Prepare`, `stmt.Exec` and the closing of handles. The
  database is an oracle (`prepareOk`, `accept`), and only the statement text and
  the parameter vectors are modelled. How the driver binds an `interface{}` value
  is not modelled.
- The bytes of the reply. The model records the status, whether the reply is the
  JSON envelope or plain text, and the message or body. It does not model the
  JSON encoding of `models.Response` (its `Data` is nil) or the response
  headers. `http.Error` sends plain text with `nosniff`, and the JSON helper
  sends `application/json` with a CORS header.
- The database's error text is an input, `dbError`: the model does not say
  what the driver writes there.
- The project, project-data and route files, the JSON envelope helper and the
  plain model structs: they hold no logic beyond the database driver, the router
  and JSON encoding.

## Findings

| source | as written | input that shows it | evidently intended | confidence | as-written member | corrected member |
|---|---|---|---|---|---|---|
| pkg/controllers/FileUploadController.go:128 | the insert loop ranges over all of `records`, so the cleaned header row is executed as the first data row | project 7 and the CSV `EquipID,System,EquipType` / `AC-1,HVAC,Chiller` / `AC-2,HVAC,Pump`, with every execution succeeding: three inserts, the first with values (7, "EquipID", "System", "EquipType") | range over `records[1:]`, giving two inserts, one per data row | not executed | `UploadIngest.HeaderRowIsInserted` | `UploadIngest.InsertDataRows` |

`UploadIngest.UploadRecords` keeps the loop as written. `UploadIngest.InsertDataRows`
states the loop over the data records only.
