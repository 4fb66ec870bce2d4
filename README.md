# student-lookup, modelled in Dafny

The system is a small Go service (`main.go`). At startup it loads incoming
students from the `.xlsx` workbooks in `./data`, then answers queries that
check a (student ID, name) pair and return the student's admitted major.

The model follows the program's structure, one module per concern:

- `Text` (text.dfy): Go's `strings.TrimSpace`, with the whitespace set of
  `unicode.IsSpace`; Go's `len` on a string, which counts UTF-8 bytes; and
  ASCII digits.
- `Records` (records.dfy): the `Student` record and the row admission rule
  of `loadExcelFile`'s row loop. Row 0 is the header and is skipped. A row
  needs six cells. Every cell is trimmed. The trimmed ID and name must both
  be non-empty. `Admissions(rows)` is the sequence of records one sheet
  yields, in row order.
- `Loader` (loader.dfy): the workbook as the spreadsheet library presents
  it, plus the sheet choice. The sheet named "学生信息" is preferred
  wherever it appears; otherwise the first sheet is used; a workbook with
  no sheet fails. A file that cannot be opened, has no sheet, or whose rows
  cannot be read contributes nothing. `LoadedStudents(files)` is the
  concatenation of the files' contributions in discovery order.
- `Catalog` (catalog.dfy): `searchStudent`'s rule. The first record whose ID
  and name both equal the query's, compared exactly and without trimming,
  is the one found.
- `Queries` (queries.dfy): `isValidStudentID`, and the decision chains of
  the two handlers. Codes: 200500 for a bad request, 200001 for "not a new
  student", 200 for success. A success carries the major as its only data.
- `Server` (server.dfy): the package variable `students` as the field of the
  class `Store`. Its methods are `loadExcelFiles`, `loadExcelFile` (sheet
  choice, then the row loop), `searchStudent` and the two handlers. Each
  method is proved against the functions above.

The sheet rule depends on workbook order only when the preferred sheet is
absent: the first sheet in workbook order is then used (main.go:91-93).
A request with a missing field is rejected differently on the two entry
points. In the JSON handler, the `required` tags on the request's fields
make binding fail (main.go:26-27, 161-166). The model receives the body
already bound, or the binder's error text; `Queries.RequiredFieldsPresent`
states what a successful binding guarantees. The URL-parameter handler
checks for empty parameters itself (main.go:200-206), and the model does
the same.

Records are admitted with any non-empty ID, but a query must carry a
12-digit ID. A loaded record whose ID is not 12 digits can therefore never
be returned (`Queries.MalformedRecordUnreachable`).

## Model

| member | source | states |
|---|---|---|
| `Text.TrimSpaceSpec` | main.go:114-119 | trimming keeps the factor of a cell between its leading and trailing whitespace; the result has no space at either end and is empty exactly when the cell is all whitespace |
| `Text.ByteLenBounds` | main.go:134 | a string's UTF-8 length is at least its character count, and equals it exactly when every character is ASCII |
| `Records.ParseRowAdmits` | main.go:102-125 | a row is admitted iff it is not row 0, has at least six cells, and neither its ID cell nor its name cell is blank; the record then holds trimmed cells 0..5 in column order |
| `Records.SkippedRowAddsNothing` | main.go:102-111 | the header row, a row of fewer than six cells, or a row with a blank ID or name leaves the sheet's records unchanged |
| `Records.AdmissionsSnoc` | main.go:113-125 | one more row appends that row's record, if it is admitted, after the records already collected |
| `Records.AdmissionsAdmissible` | main.go:113-125 | every record a sheet yields has a non-empty ID and name, and all six fields are trimmed |
| `Records.AdmissionsInRowOrder` | main.go:102-126 | the p-th record is the record of the p-th admitted row; admitted positions strictly increase, exclude the header, and cover every admitted row |
| `Records.HeaderIgnored` | main.go:102-105 | the content of row 0 never affects the records a sheet yields |
| `Records.AdmissionsBound` | main.go:102-105 | a sheet of n > 0 rows yields fewer than n records |
| `Loader.ChooseSheet` | main.go:77-93 | the sheet scan equals the sheet rule: failure iff there is no sheet; "学生信息" whenever it appears, at any position; otherwise the first sheet; the result is always one of the sheet names |
| `Loader.SelectedSheetFound` | main.go:84-99 | when a workbook has a sheet, the chosen name belongs to one of its sheets, so the file can then fail only when reading rows fails |
| `Loader.LoadedSnoc` | main.go:56-62 | the file discovered last adds its contribution after the records of the earlier files |
| `Loader.LoadedConcat` | main.go:56-62 | loading two runs of files yields the first run's records followed by the second run's |
| `Loader.FailingFileSkipped` | main.go:56-60 | a file that fails contributes nothing: loading with it equals loading without it |
| `Loader.LoadedAdmissible` | main.go:122-125 | every loaded record has a non-empty ID and name, and trimmed fields |
| `Catalog.FirstMatchIndex` | main.go:149-156 | finds no position iff no record matches; otherwise the position of a matching record that no earlier record matches |
| `Catalog.Lookup` | main.go:149-156 | returns nothing iff no record has both the query's ID and its name; otherwise a record of the catalog that matches |
| `Catalog.FirstMatchWins` | main.go:150-153 | a matching record that no earlier record matches is the one found, even when later duplicates exist |
| `Catalog.LookupAppend` | main.go:150-155 | records appended after a catalog never change an answer the catalog already gives; otherwise the appended records answer |
| `Queries.ValidIffTwelveDigits` | main.go:132-146 | the byte-length test and the digit test hold together iff the ID is exactly 12 characters, all ASCII digits (leading zeros allowed) |
| `Queries.ValidateStudentId` | main.go:132-146 | the length check and the early-exit digit scan accept exactly the IDs of 12 ASCII digits |
| `Queries.AnswerOutcome` | main.go:169-192 | 200500 iff the ID is malformed; 200001 iff it is well formed and no record matches; 200 iff one matches, with the first match's major as the only data; no data on failure |
| `Queries.MalformedIdIgnoresCatalog` | main.go:169-176 | a malformed ID gives 200500 on both entry points and the same response for any catalog, the empty one included: the lookup is never reached |
| `Queries.EntryPointsAgree` | main.go:159-232 | for every binding the `required` tags allow, a bound body gets the same response as the same two strings sent as URL parameters, and a failed binding gets 200500 |
| `Queries.LoadedRecordFound` | main.go:178-192 | querying a record's own ID and name returns 200 with its major, provided the ID is well formed, the name is non-empty and no earlier record shadows it |
| `Queries.MalformedRecordUnreachable` | main.go:169-192 | on both entry points, every 200 response carries the major of a matching record whose ID is well formed |
| `Server.Store.constructor` | main.go:37 | the package variable starts with no records |
| `Server.Store.LoadFiles` | main.go:40-66 | a failed scan or an empty file list is an error that leaves the records unchanged; otherwise the records become exactly the load of all files in discovery order |
| `Server.Store.LoadFile` | main.go:69-99 | appends the file's contribution after the records already held; reports an error exactly when the file cannot be opened, has no sheet, or its chosen sheet cannot be read |
| `Server.Store.AppendAdmitted` | main.go:101-126 | the row loop appends exactly the sheet's admitted records, in row order, after the existing records, which are left unaltered |
| `Server.Store.Search` | main.go:149-156 | the scan returns the first record matching the ID and name, or nothing iff none matches; it changes nothing |
| `Server.Store.Respond` | main.go:169-192 | the ID check, then the lookup, then the response agree with the decision rule |
| `Server.Store.HandleSearch` | main.go:159-193 | a binding failure gives 200500 with the binder's text; otherwise the shared decision rule |
| `Server.Store.HandleSearchByParams` | main.go:196-232 | an empty parameter gives 200500; otherwise the shared decision rule |
| `Server.EarlierFileWins` | main.go:56-62 | once earlier files hold a matching record, files loaded after them never change the answer; when they hold none, the later files alone answer |
| `Server.LoadThenQuery` | main.go:102-126 | a workbook holding a header and the row (2024, CS College, Class1, 202400000001, Alice, Computer Science) loads that one record; querying (202400000001, Alice) gives 200 with "Computer Science"; (999999999999, Nobody) gives 200001 |

## Left out

- The HTTP layer is not modelled: routing, the gin context, CORS, JSON
  encoding, and the HTTP status, which is always 200. The model keeps only
  the response's code, message and data; empty data stands for the omitted
  field.
- The root endpoint is not modelled. The health endpoint is not modelled
  either: it only reports the number of loaded records, `|students|`.
- JSON binding is not modelled. The model takes the bound request, or the
  binder's error text, as input. The `required` tags are stated as the
  predicate `RequiredFieldsPresent`, which `EntryPointsAgree` assumes. They
  are not enforced on the `Binding` type, so `BodyResponse` also accepts a
  bound body with an empty field, which the binder never produces.
- The directory scan (`filepath.Glob`) and the spreadsheet library
  (`excelize.OpenFile`, `GetSheetList`, `GetRows`, `Close`) are replaced by
  values: `Discovery` (the scan result) and `SourceFile` (a workbook, or one
  that cannot be opened). Each sheet carries its rows, or a read failure.
  When several sheets share a name, the first one is read.
- Logging and process startup are not modelled: the `log.Printf` calls,
  `main`, and `log.Fatalf` on a failed load.
- Strings are modelled as sequences of Unicode scalar values. Invalid UTF-8,
  which Go decodes to U+FFFD when ranging over a string, is not modelled.
- Server.Store.Search: does not model returning a pointer to a copy; the
  record itself is returned.
