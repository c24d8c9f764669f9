# Google Sheets CSV API, Dafny model

This project models the core of a small Node.js service. The service downloads one tab of a public
Google Sheets spreadsheet as CSV, turns it into JSON records, and serves those records from a
five-minute in-memory cache. Three source files are modelled:

- `csvParser.js` does the parsing:
  - `cleanField` normalises a text cell;
  - `parsePrice` splits a two-line price cell;
  - `parseCSV` is a two-state character scanner, followed by the header mapper and the record
    assembler.
- `downloadCSV.js` does the download:
  - the default ids, the export URL and the file name;
  - the parameter guard and the checks on the response;
  - the write of the file and the reported `dataLength` and `dataLines`.
- `server.js` holds the cache:
  - the `csvDataCache` map keyed by `spreadsheetId-sheetGid`, and the pull-through read
    `readCSVFile`;
  - the cache steps of `POST /api/refresh` and `DELETE /api/cache`;
  - the way the handlers pick their ids from the request.

Modules, one per concern:

| module | file | models |
|---|---|---|
| `Wrappers` | `wrappers.dfy` | `Option` and `Result` |
| `JsStrings` | `js_strings.dfy` | the JavaScript string built-ins used: the ECMAScript whitespace set, `trim`, `startsWith`, `includes`, `split` on a character, number rendering |
| `CsvFields` | `csv_fields.dfy` | `cleanField` and `parsePrice` |
| `CsvTokenizer` | `csv_tokenizer.dfy` | the scan loop of `parseCSV` (a method, proved equal to a step function) |
| `CsvFormat` | `csv_format.dfy` | an independent description of the CSV the scanner reads (quoted segments, doubled quotes, commas, line feeds), with theorems that the scanner decodes it |
| `CsvRecords` | `csv_records.dfy` | header mapping, record assembly, and the whole `parseCSV` as a method |
| `SheetDownload` | `sheet_download.dfy` | `downloadCSV` over a `Disk` of named files; the HTTP outcome is a parameter |
| `SheetCache` | `sheet_cache.dfy` | the `CsvCache` class over `map<string, Entry>`; `readCSVFile`, refresh and clear; parameter resolution |

How the outside world is modelled:

- The outcome of the HTTP request, and whether writing and reading the file succeed, are parameters
  (`FetchOutcome`, `Io`).
- The files are a `map<string, string>` from path to contents, held by the `Disk` class.
- The two `Date.now()` readings of `readCSVFile` are the integer parameters `nowCheck` and
  `nowStore`. `nowCheck` is the freshness test at server.js line 40, and `nowStore` is the timestamp
  at line 63.
- A thrown error is an `Err` of `Failure`.

Each imperative piece of the source is a method proved against a function:

- `CsvTokenizer.Tokenize` is proved equal to `Tokenized`;
- `CsvRecords.ParseCsv` to `Parsed`;
- `SheetDownload.DownloadCsv` to `Download`;
- `SheetCache.CsvCache.ReadCsvFile` to `ReadCsv`;
- `SheetCache.CsvCache.RefreshSheet` to `Refresh`.

The lemmas state the source's promises about those functions.

Behaviour of the code worth knowing:

- The header row is also turned into a record and gets `rowNumber` 1. A sheet with a header row and
  two data rows therefore gives three records, not two, and `rowNumber` counts the header row.
- An empty field under a `price*` header becomes the text `''`, not a price object.
- The cache is keyed by the single string `spreadsheetId + "-" + sheetGid`, not by the pair of ids.
  So `("a-b", "c")` and `("a", "b-c")` share one entry, and they also share one file.
- After a successful download, a refresh deletes the entry before reading the file again. If that
  read fails, the sheet is left with no entry at all; the previous entry is not kept.

## Model

| member | source | states |
|---|---|---|
| JsStrings.TrimSlice | csvParser.js:8 | the result of `trim` is trimmed, is a contiguous slice of its input, and only whitespace is cut from either side |
| JsStrings.TrimOfTrimmed | csvParser.js:58 | `trim` leaves an already trimmed string unchanged |
| JsStrings.ContainsIff | downloadCSV.js:60 | `includes` holds exactly when the substring occurs at some offset |
| JsStrings.Split | downloadCSV.js:95 | `split('\n')` gives one more piece than there are separators |
| JsStrings.JoinSplit | csvParser.js:15 | joining the pieces of a split gives the original text back |
| JsStrings.SplitJoin | csvParser.js:15 | splitting a join of separator-free pieces gives the pieces back |
| JsStrings.SplitPrefix | csvParser.js:15 | a separator-free prefix and the separator split off as the first piece |
| JsStrings.DecimalRoundTrip | csvParser.js:106 | the decimal rendering of an index reads back as that index |
| CsvFields.ReplaceLineBreaks | csvParser.js:6 | the result is empty exactly when the input is, and it starts with whitespace exactly when the input does |
| CsvFields.CollapseWhitespace | csvParser.js:7 | the result is empty exactly when the input is, and it starts with whitespace exactly when the input does |
| CsvFields.CollapseWhitespaceCollapsed | csvParser.js:7 | after collapsing, every whitespace character is a single space with no whitespace next to it |
| CsvFields.ReplaceLineBreaksNoLf | csvParser.js:6 | text without line feeds is left unchanged by the line-break step |
| CsvFields.CollapseOfCollapsed | csvParser.js:7 | already-collapsed text is left unchanged by the collapsing step |
| CsvFields.CleanField | csvParser.js:2-9 | `cleanField` as written: `''` for an empty field, else line breaks to spaces, whitespace runs collapsed, trimmed; its promises are `CleanFieldShape`, `CleanFieldIdempotent` and `CleanFieldIsJoinedWords` |
| CsvFields.CleanFieldShape | csvParser.js:2-9 | `cleanField('')` is `''`; every result is trimmed, has only single spaces as whitespace, and holds no LF or CR |
| CsvFields.CleanFieldIdempotent | csvParser.js:2-9 | applying `cleanField` twice equals applying it once |
| CsvFields.CleanFieldIsJoinedWords | csvParser.js:2-9 | `cleanField` returns exactly the words of the field, in order, separated by single spaces |
| CsvFields.WordsReplaceLineBreaks | csvParser.js:6 | replacing line breaks by spaces keeps the words |
| CsvFields.WordsCollapse | csvParser.js:7 | collapsing whitespace runs keeps the words |
| CsvFields.WordsTrimStart | csvParser.js:8 | dropping leading whitespace keeps the words |
| CsvFields.TrimCollapsedIsJoinedWords | csvParser.js:7-8 | trimming collapsed text gives its words joined by single spaces |
| CsvFields.ParsePrice | csvParser.js:12-23 | `parsePrice` as written: empty parts for an empty field, else the trimmed first and second LF-separated lines; its promises are `PriceOneLine`, `PriceTwoLines` and `PriceExample` |
| CsvFields.PriceOneLine | csvParser.js:12-23 | a one-line price cell is all amount: the trimmed line, with an empty shipping |
| CsvFields.PriceTwoLines | csvParser.js:15-21 | with two or more lines, the amount and shipping are the first two trimmed lines; later lines are dropped |
| CsvFields.PriceExample | csvParser.js:12-23 | `100` LF `+Shipping 20` gives amount `100`, shipping `+Shipping 20`, display `100 (+Shipping 20)` |
| CsvFields.PriceDisplay | csvParser.js:125 | the `display` string as written: the amount alone when the shipping part is empty, else `amount (shipping)`; its promises are `PriceExample` and `PriceColumnExample` |
| CsvTokenizer.Tokenized | csvParser.js:26-85 | the rows `parseCSV` builds, as written: the step function run over the text, then the final-row statements; its promises are `TokenizedRowsShape`, `TokenizedRowCount`, `TokenizeEncodedRows`, `TokenizeUnterminatedRow` and `TokenizeUnclosedQuote`, and `Tokenize` is proved to compute it |
| CsvTokenizer.Step | csvParser.js:37-77 | one turn of the loop consumes one character, or two for an escaped quote |
| CsvTokenizer.Tokenize | csvParser.js:26-85 | the scan loop and the final-row statements compute exactly `Tokenized(text)` |
| CsvTokenizer.ScanEscapedQuote | csvParser.js:44-47 | inside quotes, `""` appends exactly one `"` and consumes both characters |
| CsvTokenizer.ScanClosingQuote | csvParser.js:48-51 | inside quotes, a lone `"` ends the quoted part and is not appended |
| CsvTokenizer.ScanQuotedChar | csvParser.js:71-74 | inside quotes, every other character (comma, LF and CR included) is appended verbatim |
| CsvTokenizer.ScanOpeningQuote | csvParser.js:52-55 | outside quotes, a `"` anywhere, even mid-field, enters the quoted state and is not appended |
| CsvTokenizer.ScanComma | csvParser.js:56-59 | outside quotes, a comma closes the trimmed field into the row |
| CsvTokenizer.ScanLineFeed | csvParser.js:60-67 | outside quotes, LF closes the field and the row; the row is kept only if a field is non-empty |
| CsvTokenizer.ScanCarriageReturn | csvParser.js:68-70 | outside quotes, CR is dropped |
| CsvTokenizer.ScanPlainChar | csvParser.js:71-74 | outside quotes, any other character is appended to the field |
| CsvTokenizer.StepKeepsOk | csvParser.js:56-74 | a step keeps the invariant: the pending fields are trimmed, and the rows emitted so far have content and trimmed fields |
| CsvTokenizer.ScanKeepsOk | csvParser.js:37-77 | the whole loop keeps that invariant |
| CsvTokenizer.TokenizedRowsShape | csvParser.js:63-65 | every emitted row, the final unterminated one included, has a non-empty field and only trimmed fields |
| CsvTokenizer.TokenizedEmpty | csvParser.js:89 | empty input yields no rows |
| CsvTokenizer.ScanExtendsRows | csvParser.js:64 | the loop only appends to the rows already emitted |
| CsvTokenizer.ScanRowCount | csvParser.js:60-65 | the loop emits at most one row per LF read |
| CsvTokenizer.TokenizedRowCount | csvParser.js:26-89 | there are never more rows than LFs plus one |
| CsvFormat.RowValues | csvParser.js:58 | a row has one trimmed value per field |
| CsvFormat.TokenizeEncodedRows | csvParser.js:37-85 | any well-formed CSV text (bare and quoted segments, doubled quotes, commas, LF-ended rows) is decoded to its trimmed field values, with all-empty rows left out |
| CsvFormat.TokenizeUnterminatedRow | csvParser.js:79-85 | the same holds when the last row has no LF: the pending row is kept exactly when it has content |
| CsvFormat.TokenizeUnclosedQuote | csvParser.js:41-85 | a quote still open at end of input is accepted: its content, LFs and commas included, ends the last field, after the row's earlier fields and after any text of that field before the quote |
| CsvFormat.OpenCellRun | csvParser.js:41-74 | a field that does not end in a quoted segment is read to its value whatever follows it, a quote included |
| CsvFormat.UnclosedQuoteExample | csvParser.js:41-85 | `a,"b` LF `c` reads as the one row `a`, `b` LF `c` |
| CsvFormat.SingleQuotedField | csvParser.js:41-85 | a text that is one quoted field reads as its content, when that is non-empty and trimmed |
| CsvFormat.EscapedQuoteExample | csvParser.js:41-55 | `"a""` LF `b"` reads as the one field `a"` LF `b` |
| CsvFormat.QuotedSpeechExample | csvParser.js:41-55 | `He said "hi"` LF `and left` is written `"He said ""hi""` LF `and left"`, which reads back as that one field |
| CsvFormat.EscapeAppend | csvParser.js:43-47 | quote doubling distributes over concatenation |
| CsvFormat.EscapeNoQuote | csvParser.js:43-50 | quote-free text is written unchanged inside quotes |
| CsvFormat.RowsRun | csvParser.js:37-77 | scanning rows of well-formed CSV appends exactly their expected rows |
| CsvFormat.CellRun | csvParser.js:41-74 | scanning one well-formed field accumulates exactly its value |
| CsvRecords.MapHeaders | csvParser.js:93 | there is one header per field of row 0 |
| CsvRecords.HeaderName | csvParser.js:93-107 | the callback of `rawHeaders.map` as written: the title marker test at position 0, the fixed names at 1-7, else the cleaned text or the placeholder; its promises are `HeaderNameRules`, `MapHeadersRules` and `PlaceholderNamesDistinct` |
| CsvRecords.HeaderNameRules | csvParser.js:93-107 | positions 1-7 get the fixed names; position 0 is `title` exactly when its cleaned text holds the marker (or is `title`); position 0 without the marker, and every position from 8 on, gets its cleaned text, or `column_<i>` when that is empty |
| CsvRecords.MapHeadersRules | csvParser.js:92-107 | the same rules for every position of the mapped header row, the position-0 fallback to the cleaned text or `column_0` included |
| CsvRecords.PlaceholderNamesDistinct | csvParser.js:106 | distinct positions get distinct `column_<i>` names |
| CsvRecords.RawAt | csvParser.js:116 | a column beyond the end of the row reads `''` |
| CsvRecords.CrLfToLf | csvParser.js:129 | CRLF normalisation never lengthens the text |
| CsvRecords.CrLfToLfLines | csvParser.js:129 | CRLF normalisation is the text cut at every LF, one final CR dropped from each line a LF ends, joined again with LF: only a CR right before a LF goes, everything else stays in order |
| CsvRecords.CrLfToLfThenSpaces | csvParser.js:129 | normalising CRLF and then turning the LFs into spaces is `cleanField`'s line-break step |
| CsvRecords.CrLfToLfNoLf | csvParser.js:129 | text without LF is left unchanged by CRLF normalisation |
| CsvRecords.ColumnValue | csvParser.js:119-134 | the value of one column as written: a price object for a `price*` header with a non-empty field, the normalised text for `description`, else the cleaned text; its promises are `ColumnValueKinds`, `DescriptionIsNotPrice` and `PriceColumnExample` |
| CsvRecords.ColumnValueKinds | csvParser.js:119-134 | a price object is written exactly for a `price*` header with a non-empty field; an empty field gives `''` under every header |
| CsvRecords.PriceColumnExample | csvParser.js:119-126 | under `price100_300`, `100` LF `+Shipping 20` becomes the price object with display `100 (+Shipping 20)` |
| CsvRecords.WriteColumnCases | csvParser.js:119-134 | a column writes a price object, or the normalised description and `description_clean`, or the cleaned text |
| CsvRecords.WrittenValueKinds | csvParser.js:119-134 | a column leaves its column value under its header and the cleaned text under `description_clean` |
| CsvRecords.PutHit | csvParser.js:121-133 | a column sets each key it writes to its value there |
| CsvRecords.PutMiss | csvParser.js:121-133 | a column leaves every other key as it was |
| CsvRecords.PutKeys | csvParser.js:121-133 | a column adds exactly its keys to the record |
| CsvRecords.DescriptionIsNotPrice | csvParser.js:119-127 | `description` never takes the price branch |
| CsvRecords.Records | csvParser.js:112-150 | one record per tokenized row, and record k has `rowNumber` k+1 |
| CsvRecords.WrittenKeysIff | csvParser.js:115-135 | a key is written exactly when some column has it among its keys |
| CsvRecords.FillKeys | csvParser.js:115-135 | a record's column keys are the keys its headers write, whatever the columns write there |
| CsvRecords.ColumnsStep | csvParser.js:115-135 | each turn of the column loop writes one more column onto the record |
| CsvRecords.RecordKeys | csvParser.js:115-138 | a record's keys are the headers, `description_clean` when there is a description column, and `rowNumber` |
| CsvRecords.LastWriterWins | csvParser.js:115-135 | when several columns share a key, the value of the last of them is kept |
| CsvRecords.RecordField | csvParser.js:115-138 | every key but `rowNumber` holds the value of the last column that writes it |
| CsvRecords.ColumnsAgree | csvParser.js:115-116 | two rows agreeing on the fields below the header count make every column write the same |
| CsvRecords.WideRowTruncated | csvParser.js:115-116 | fields beyond the header count are ignored |
| CsvRecords.ShortRowPadded | csvParser.js:116 | a short row reads as if padded with `''` |
| CsvRecords.Parsed | csvParser.js:26-153 | what `parseCSV` returns, as written: the records of the tokenized rows; its promises are `ParsedRecords`, `ParsedCount`, `ParsedEmpty`, `RecordKeys` and `RecordField`, and `ParseCsv` is proved to compute it |
| CsvRecords.ParsedCount | csvParser.js:26-153 | there are never more records than LFs plus one |
| CsvRecords.ParsedEmpty | csvParser.js:89 | empty input gives no records |
| CsvRecords.ParsedRecords | csvParser.js:112-150 | every row becomes a record, the header row included, built with the headers of row 0 |
| CsvRecords.SetColumn | csvParser.js:115-135 | the column callback, with the source's three branches, writes what `WriteColumn` states |
| CsvRecords.BuildRecord | csvParser.js:112-138 | the row callback builds exactly the row's record: all columns in order, then `rowNumber` |
| CsvRecords.ParseCsv | csvParser.js:26-153 | `parseCSV` returns exactly `Parsed(text)` |
| SheetDownload.CsvUrl | downloadCSV.js:10-12 | `generateCSVUrl` as written: the fixed prefix, the spreadsheet id, `/export?format=csv&gid=`, the sheet id, the fixed suffix; its promise is `CsvUrlRoundTrip` |
| SheetDownload.CsvUrlRoundTrip | downloadCSV.js:10-12 | both ids are inserted verbatim: an id without `/` and any sheet id are read back from the URL |
| SheetDownload.FilePath | downloadCSV.js:15-17 | `generateFilePath` as written: `data/sheets-<id>-<gid>.csv`; its promises are `SheetCache.FilePathOfKey` and `SheetCache.KeyIffPath` |
| SheetDownload.ValidateResponse | downloadCSV.js:59-67 | the two checks on the response as written: the HTML markers first, then the length of at least 10; its promises are `ValidateResponseIff`, `ShortHtmlIsRedirect` and `MixedCaseHtmlAccepted` |
| SheetDownload.ValidateResponseIff | downloadCSV.js:59-67 | a response is accepted unchanged exactly when it has no HTML marker and at least 10 characters; the HTML check comes first |
| SheetDownload.MissingCharNotContained | downloadCSV.js:60 | text missing one character of a marker does not contain the marker |
| SheetDownload.ShortHtmlIsRedirect | downloadCSV.js:59-67 | the 6-character body `<html>` is reported as HTML, not as too short |
| SheetDownload.MixedCaseHtmlAccepted | downloadCSV.js:60 | the markers are case-sensitive: a body opening with `<Html>` is accepted |
| SheetDownload.Download | downloadCSV.js:33-103 | `downloadCSV` as written, over the request outcome and the write outcome: the guard, the request, the two checks, the write; its promises are `DownloadGuard` and `DownloadOutcome`, and `DownloadCsv` is proved to compute it |
| SheetDownload.DownloadGuard | downloadCSV.js:36-38 | an empty id fails before anything is fetched or written |
| SheetDownload.DownloadOutcome | downloadCSV.js:33-97 | a download succeeds exactly when the ids are given, the fetch returns text that passes both checks, and the write works; then that text is stored under `data/sheets-<id>-<gid>.csv`, with `dataLength` its length and `dataLines` its LF count plus one; every failure leaves the files unchanged |
| SheetDownload.DownloadCsv | downloadCSV.js:33-103 | the download step computes exactly the result and the files `Download` states |
| SheetDownload.Disk.constructor | downloadCSV.js:76 | a disk holds the given files |
| SheetCache.CsvCache.constructor | server.js:24 | the cache starts empty |
| SheetCache.CsvCache.Get | server.js:39 | `get` returns the entry exactly when the key is present |
| SheetCache.CsvCache.Set | server.js:61-64 | `set` maps the key to the entry and changes nothing else |
| SheetCache.CsvCache.Delete | server.js:149 | `delete` reports whether the key was present and removes only that key |
| SheetCache.CsvCache.Clear | server.js:349-350 | clear reports the size before the call and leaves the cache empty |
| SheetCache.CsvCache.ReadCsvFile | server.js:28-72 | `readCSVFile` returns and leaves exactly what `ReadCsv` states |
| SheetCache.CsvCache.RefreshSheet | server.js:144-152 | the refresh steps return and leave exactly what `Refresh` states |
| SheetCache.CacheKey | server.js:30 | the cache key as written: `spreadsheetId-sheetGid`; its promises are `CacheKeyInjective`, `CacheKeyCollision` and `KeyIffPath` |
| SheetCache.IsHit | server.js:39-40 | the freshness test as written: the key is present and less than 300000 ms have passed since its timestamp; its promises are `FreshAfterLoad` and `StaleAtDuration` |
| SheetCache.ReadCsv | server.js:28-72 | `readCSVFile` as written, over the cache, the files and the two clock readings; its promises are `ReadHit`, `LoadFileOutcome`, `MissWithFileRereads`, `MissWithoutFileDownloads`, `ReadFailureKeepsCache` and `ReadMissStores`, and `CsvCache.ReadCsvFile` is proved to compute it |
| SheetCache.ReadHit | server.js:39-43 | on a hit the stored records are returned, and neither the cache nor the files change |
| SheetCache.LoadFileOutcome | server.js:53-66 | a read succeeds exactly when the file exists and can be read; the parse is then stored under the key stamped `nowStore` and no other key changes; a failure stores nothing |
| SheetCache.MissWithFileRereads | server.js:45-66 | on a miss, including a stale entry, with the file present, nothing is downloaded and the existing file is parsed again |
| SheetCache.MissWithoutFileDownloads | server.js:45-66 | on a miss with no file, the sheet is downloaded first; a failed download is the result and changes nothing |
| SheetCache.ReadFailureKeepsCache | server.js:46-71 | any failure leaves the cache as it was |
| SheetCache.ReadMissStores | server.js:58-66 | a successful miss maps the key to exactly the records returned, stamped `nowStore`, parsed from the file now on disk; all other keys are unchanged |
| SheetCache.FreshAfterLoad | server.js:25-43 | records stored at time t are served from the cache by every read whose check falls in [t, t + 300000) |
| SheetCache.StaleAtDuration | server.js:25-40 | at exactly 300000 ms the entry is stale, and the file is read again |
| SheetCache.Refresh | server.js:144-152 | the cache steps of `POST /api/refresh` as written: download, delete the entry, `readCSVFile`; its promises are `RefreshFailedDownload` and `RefreshAfterDownload`, and `CsvCache.RefreshSheet` is proved to compute it |
| SheetCache.RefreshFailedDownload | server.js:144 | a refresh whose download fails deletes nothing and changes nothing |
| SheetCache.RefreshAfterDownload | server.js:144-152 | after a successful download, the refresh never serves the old entry and never downloads twice; the key then maps to the new parse, or is gone if the read fails |
| SheetCache.FilePathOfKey | server.js:30-31 | the file name is the cache key with a fixed prefix and suffix |
| SheetCache.KeyIffPath | server.js:30-31 | two sheets share a cache key exactly when they share a file name (the name as a string, before `path.join` resolves it) |
| SheetCache.CacheKeyInjective | server.js:30 | ids without `-` are told apart by the key |
| SheetCache.CacheKeyCollision | server.js:30 | `("a-b","c")` and `("a","b-c")` share the key `a-b-c` |
| SheetCache.CollidingSheetsShareEntry | server.js:28-72 | two sheets with the same key, all four ids non-empty as every route guarantees, get the same result, cache and files from `readCSVFile` |
| SheetCache.FirstNonEmptyRule | server.js:78 | `a \|\| b \|\| default` picks the first non-empty candidate, and the default only when all are empty |
| SheetCache.FirstNonEmptyPresent | server.js:78-79 | with a non-empty default, the choice is never empty |
| SheetCache.QueryIds | server.js:78-79 | the ids of `GET /api/data` as written (and of `GET /api/info`, lines 179-180): `spreadsheet_id`, then `spreadsheetId`, then the default, and likewise for the sheet id; its promises are `ResolvedIdsPresent` and `QueryIdsExamples` |
| SheetCache.RefreshIds | server.js:136-139 | the ids of `POST /api/refresh` as written: each name in the query string and then in the body before the next name, then the default; its promise is `ResolvedIdsPresent` |
| SheetCache.ResolvedIdsPresent | server.js:78-89 | the data, info and refresh routes always resolve to two non-empty ids, so the 400 branch and the download guard never fire for them |
| SheetCache.QueryIdsExamples | server.js:78-79 | with no ids the defaults are used; an empty `spreadsheet_id` falls back to `spreadsheetId` |

## Left out

- The HTTP layer: Express routing, JSON response bodies, CORS and static files. Only the cache steps
  of the handlers and their parameter resolution are modelled. Neither are the info route's file
  statistics or the health route.
- The network request (axios, its headers, redirect limit and timeout). It is the
  `FetchOutcome` parameter: a text body, or a failure.
- The file system:
  - `fs.access`, `readFile`, `writeFile`, `stat` and `mkdir` act on a map from path to contents;
  - the write of the file (including making the data directory) is one success flag;
  - the read is one success flag, together with the file being present;
  - partial writes, encodings and external changes to the files are not modelled.
- Files are named by their relative paths. `path.join` and `__dirname` are not modelled. `path.join` resolves
  `/`, `.` and `..` inside the ids, so distinct cache keys can name one file (`("x/../y","c")` and
  `("z/../y","c")` both use `data/y-c.csv`), and an id holding `..` can leave the data directory.
  The model compares file names as strings.
- `tab.json` copying and listing, and the PM2 configuration files: they involve no sheet logic.
- Logging (`console.log`), including the row preview in `parseCSV` and the data preview in
  `downloadCSV`.
- Clock readings and ISO time strings:
  - clock readings are integer parameters;
  - `downloadTime`, `lastUpdated` and the like are not modelled;
  - `DownloadInfo` omits the constant `success` flag and `downloadTime`.
- Concurrency: two requests interleaving their awaits on the shared cache.
- Query values that are not strings (repeated parameters give arrays).
- JavaScript object details:
  - records are maps, so key order is not modelled;
  - a header naming a special object property (`__proto__`) is treated like any other key.
- Unicode: strings are sequences of characters. The UTF-16 surrogate pairs that JavaScript's `length`
  counts are not modelled.
- The whitespace set of `\s` and `trim` is written out as the ECMAScript WhiteSpace and
  LineTerminator characters. It is one set, shared by both.
- CsvFields.ReplaceLineBreaks: its contract states only its emptiness and its first character. What
  it does to the words is stated by `CsvFields.WordsReplaceLineBreaks`, and
  `CsvRecords.CrLfToLfThenSpaces` relates it to CRLF normalisation.
- CsvFields.CollapseWhitespace: its contract states only its emptiness and its first character.
  Collapsing is stated by `CsvFields.CollapseWhitespaceCollapsed`, and the words by
  `CsvFields.WordsCollapse`.
