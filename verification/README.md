# Database ingestion tool: client pipeline and server guards

This project models the logic core of a small database ingestion tool. A browser page
(`script.js`) loads a CSV or JSON file. It previews the rows, maps file fields to the columns of
a target table and rebuilds the file from that mapping. It then posts the result to a Python
service (`app.py`). The service checks the request against the table's schema and records a
background job in an in-memory job table. Clients poll that job until it completes or fails.

The model is in Dafny, one module per concern:

- `Wrappers`, `Seqs`, `Text`: shared data types and string operations of both languages:
  - JavaScript `split`, `join` and `trim`;
  - Python `strip`, `upper`, `lower`, `startswith` and `in`.
- `Base64`: base 64 with the standard alphabet and padding, as section 4 of RFC 4648 defines
  it. It has a decoder and a proved round trip. Both the browser (`btoa`) and the server
  (`base64.b64encode`) use it.
- `JsonValue`: parsed JSON values, with the JavaScript operations the page applies to them.
- `CsvCodec`: the single-line CSV tokenizer `parseCsvLine` and `csvEscape`.
  - The tokenizer is a state machine.
  - Its loop (`ParseCsvLine`) is proved equal to that state machine.
  - Escaping then parsing is proved to round-trip.
- `Loader`: the CSV and JSON load steps of `verifyFile`. This includes `getJsonKeySet`, a loop
  proved against a first-seen, duplicate-free key union.
- `Mapping`: default mapping seeding and the included-attribute filter.
- `Payload`, `HeaderGap`: the CSV and JSON payloads and the upload form built by `uploadFile`.
- `Display`: `escapeHtml` (with an unescaper proving it loses nothing), preview truncation and
  `errorToString`.
- `Client`: the page's globals as the class `Session`. Each handler is a method that updates
  them in place: file choice, schema load, verify, mapping, row selection, paging, upload and
  the job card order.
- `ServerGuards`: the pure checks of `app.py`:
  - identifier validation and `parse_list`;
  - the read-only query guard and the CREATE TABLE guard;
  - schema folding;
  - upload request validation and the CSV column check;
  - `serialize_value`.
- `Jobs`: the `JOBS` dictionary as the class `JobTable`. It covers:
  - the retention purge;
  - creating, completing and failing upload jobs;
  - cancel requests;
  - the single-job view and the recent-jobs listing with its stable newest-first sort.
- `Polling`: one tick of the page's job poller.

Modelling conventions:

- Times are integers (microseconds).
- JSON numbers are integers.
- `JSON.parse`, `JSON.stringify` and the database are function parameters or method
  parameters.

## Model

| member | source | states |
|---|---|---|
| Base64.SextetRoundTrip | script.js:33-45 | every 6-bit value maps to an alphabet character that maps back to it (the alphabet of section 4 of RFC 4648) |
| Base64.Encode | script.js:33-45 | the encoding has 4·⌈n/3⌉ characters and is empty exactly when there are no bytes |
| Base64.DecodeThree | script.js:33-45 | a full group of three bytes decodes back, whatever follows it |
| Base64.DecodeOne | script.js:33-45 | a final single byte, padded with `==`, decodes back |
| Base64.DecodeTwo | script.js:33-45 | a final pair of bytes, padded with `=`, decodes back |
| Base64.PairDecodes | script.js:33-45 | the three characters of a padded pair give back both bytes |
| Base64.GroupDecodes | script.js:33-45 | the four characters of a full group give back its three bytes, whatever follows them |
| Base64.DecodeEncode | app.py:709-710 | every byte sequence decodes back from its encoding, for any length |
| JsonValue.DecimalToInteger | script.js:35 | blank text converts to 0, as `Number('')` does |
| JsonValue.DecimalOfDigits | script.js:35 | a run of decimal digits converts to its value |
| JsonValue.DecimalOfNegated | script.js:35 | a minus sign followed by digits converts to the negated value |
| JsonValue.IntTextReadsBack | script.js:35 | the decimal text of every integer converts back to it |
| JsonValue.ToUint8NumberText | script.js:35 | a number, its decimal text, and a one-element array holding it give the same byte in `new Uint8Array` |
| CsvCodec.Scan | script.js:230-260 | the tokenizer only appends to the fields already emitted, and always emits at least one more |
| CsvCodec.ParseLine | script.js:230-260 | a line always yields at least one field |
| CsvCodec.ScanCount | script.js:230-260 | from any state, the fields emitted are one more than the commas read outside quotes |
| CsvCodec.FieldCount | script.js:230-260 | a line yields exactly one more field than it has commas outside quotes |
| CsvCodec.ParseCsvLine | script.js:230-260 | the imperative loop over `cur`, `inQuotes` and `out` returns exactly the state machine's fields |
| CsvCodec.DoubleQuotes | script.js:265 | doubling quotes never shortens the value and adds no character but `"` |
| CsvCodec.CsvEscape | script.js:262-268 | a value is returned unchanged when it holds no `"`, `,`, `\n` or `\r`; the result starts with a quote exactly when it needs quoting |
| CsvCodec.ScanPlain | script.js:248-256 | outside quotes, a run with no quote and no comma is copied into the current field |
| CsvCodec.ScanQuoted | script.js:236-246 | inside quotes `""` yields one `"` and a lone `"` ends quoting, so a doubled field reads back as itself |
| CsvCodec.ScanEscaped | script.js:230-268 | an escaped field followed by a comma or the end of the line reads back as the original field |
| CsvCodec.ScanLine | script.js:230-268 | a joined line of escaped fields scans to exactly those fields |
| CsvCodec.RoundTrip | script.js:230-268 | `parseCsvLine(fields.map(csvEscape).join(','))` equals `fields` for every non-empty list of strings |
| Loader.ReplaceCrLf | script.js:527 | a text without `\r` is unchanged |
| Loader.ReplaceCrLfAppend | script.js:527 | replacing `\r\n` distributes over a concatenation that does not split a `\r\n` pair |
| Loader.ReplaceCrLfUnits | script.js:527 | a lone `\r` is left for the second pass, and `\r\n` becomes `\n` |
| Loader.NormalizeNewlines | script.js:527 | no `\r` survives newline normalisation |
| Loader.NormalizeKeeps | script.js:527 | a text without `\r` is unchanged by normalisation |
| Loader.NormalizeAppend | script.js:527 | normalisation distributes over a concatenation that does not split a `\r\n` pair |
| Loader.NormalizeEnding | script.js:527 | each of the three line endings `\n`, `\r\n` and `\r` becomes `\n` |
| Loader.NormalizeJoin | script.js:527 | lines joined by any one line ending normalise to the same lines joined by `\n` |
| Loader.CsvLines | script.js:527 | every kept line is non-empty and holds no line break |
| Loader.CsvLinesJoin | script.js:527 | the lines of a text written with any one line ending are exactly its non-empty lines, in order |
| Loader.SplitSubset | script.js:527 | every piece of a split holds only characters of the text |
| Loader.CsvHeader | script.js:531 | every header name is non-empty and has no white space at either end |
| Loader.CsvHeaderOfFields | script.js:531 | a header line written from trimmed names reads back as those names with the empty ones dropped |
| Loader.RecordsRoundTrip | script.js:532 | every record written as an escaped line reads back as its string cells |
| Loader.LoadCsvRoundTrip | script.js:524-533 | a file written as a header line and record lines with any line ending loads, with the non-empty header names, one row of string cells per record, and no JSON objects |
| Loader.LoadCsv | script.js:524-533 | an empty file (no non-empty line) fails with 'CSV file is empty' and nothing else does; otherwise the header is the cleaned first line, each later line is a row of string cells, and no JSON objects are kept |
| Loader.JsonObjects | script.js:544-545 | only plain objects are kept, and every plain object of an array is kept; a single non-array value is wrapped when it is a plain object and dropped otherwise |
| Loader.JsonObjectsAppend | script.js:544-545 | the filter distributes over concatenation, so the kept objects stay in array order |
| Loader.JsonObjectsAll | script.js:544-545 | an array of plain objects is kept whole |
| Loader.FirstIndex | script.js:359-367 | the first position of a key in a sequence |
| Loader.FirstIndexExtend | script.js:359-367 | appending does not move the first position of a key already present |
| Loader.DedupSnoc | script.js:359-367 | a key is appended to the union only when it is not already there |
| Loader.AllKeysSnoc | script.js:359-367 | the keys of one more row follow the keys of the rows before it |
| Loader.DedupProperties | script.js:359-367 | the key union has no duplicates, holds exactly the keys seen, and keeps first-seen order |
| Loader.AllKeysMembers | script.js:359-367 | a key is among all keys exactly when some row has it |
| Loader.KeyUnionProperties | script.js:359-367 | `getJsonKeySet` returns every key of every object, no duplicates, in first-seen order |
| Loader.AddKeys | script.js:362-365 | adding the keys of one object to the set keeps it equal to the duplicate-free union of all keys read so far |
| Loader.GetJsonKeySet | script.js:359-367 | the loop returns exactly the key union |
| Loader.Pad | script.js:557 | a missing or null value becomes a non-null cell; any other value is kept |
| Loader.LoadJson | script.js:534-557 | unparsable text, no plain objects and no keys fail with their own errors; success keeps the objects, the key union as header and the padded rows |
| Loader.LoadJsonRows | script.js:544-557 | the loaded header is duplicate-free and covers every key; each cell is the object's non-null value or `''` |
| Loader.DedupEmpty | script.js:551 | the key union is empty exactly when no key was seen |
| Loader.AllKeysEmpty | script.js:551 | no key is seen exactly when every row has no keys |
| Loader.NoKeysWhenAllEmpty | script.js:551-555 | 'JSON has no keys to preview' happens exactly when every object is empty |
| Mapping.IncludedOf | script.js:659 | the included attributes are schema attributes, in order, whose mapping is non-empty and not `'__AUTO__'`, and every such attribute is included |
| Mapping.IncludedOfAppend | script.js:659 | the filter distributes over concatenation |
| Mapping.MappedPrimaryKeyIncluded | script.js:731 | every mapped primary-key column is among the included attributes |
| Mapping.SeededProperties | script.js:286-291 | seeding only adds the schema attributes, never overwrites an entry, and seeds each new one with the same-named header field or `''` |
| Mapping.SeededIdempotent | script.js:286-291 | seeding twice equals seeding once |
| Mapping.SeededFromEmpty | script.js:286-291 | from an empty mapping, exactly the attributes present in the header end up included |
| Payload.Ascending | script.js:673-675 | the selected indices in ascending order are all row indices |
| Payload.AscendingProperties | script.js:673-675 | the sorted selection is strictly increasing and holds exactly the selected row indices |
| Payload.ExportIndices | script.js:673-675 | every exported index is a row index |
| Payload.ExportIndicesProperties | script.js:673-675 | the exported rows are the selected ones in ascending order, or all rows in order when none is selected |
| Payload.CellFor | script.js:667-681 | a mapped name missing from the header yields `''`; any other non-empty cell is the row's value at a header position of that name |
| Payload.BuildCsvPayload | script.js:665-688 | the loop pushing into `outLines` yields exactly the specified payload text |
| Payload.CsvPayloadParses | script.js:665-684 | parsing each payload line gives back the output header and each exported row's fields |
| Payload.JoinNoSep | script.js:686 | joining pieces that lack the separator keeps it out of a single piece |
| Payload.EscapeAllNoChar | script.js:680 | escaping adds no line break |
| Payload.JoinKeepsOut | script.js:683 | joining never introduces a character other than the separator |
| Payload.CsvPayloadSplits | script.js:665-686 | when no field holds a line feed, splitting the payload at line feeds gives back its lines |
| Payload.JsonCell | script.js:704-717 | null and missing become `''`; primitives are kept; other objects become their JSON text |
| Payload.JsonCellBuffer | script.js:709-711 | a non-empty buffer becomes a base-64 string that decodes to its bytes; an empty one becomes its JSON text |
| Payload.OutFieldsProperties | script.js:700-720 | an output object has exactly the included attributes, each holding the normalised value of its mapped field |
| Payload.ConvertObject | script.js:700-720 | the per-object loop builds exactly those fields |
| Payload.PrepareUpload | script.js:623-735 | each guard in source order stops the upload with its own error (no file, no schema, no attributes, no key, not verified, nothing mapped, JSON not verified); the upload is sent exactly when all pass; a sent form carries the table, the included attributes joined by commas, the mapped primary key, and the rebuilt file |
| HeaderGap.ParseGapLine | script.js:230-260 | the header line `a,,b` parses to three tokens |
| HeaderGap.ParseRowLine | script.js:230-260 | the row `1,2,3` parses to three fields |
| HeaderGap.TrimGapNames | script.js:531 | trimming keeps the empty token |
| HeaderGap.FilterGapNames | script.js:531 | `filter(Boolean)` drops it |
| HeaderGap.GapHeader | script.js:531 | so the header becomes `a`, `b` |
| HeaderGap.HeaderGapShiftsColumns | script.js:531 | with that header, the field mapped to `b` takes the row's second value `2` |
| HeaderGap.HeaderColumns | script.js:531 | the unfiltered header has one name per parsed field |
| HeaderGap.CorrectedCellPicksColumn | script.js:667-681 | when names keep their parsed positions, the field mapped to a header name takes the value in that name's column |
| Display.EscapeHtml | script.js:20-27 | no `<`, `>`, `"` or `'` survives escaping |
| Display.EscapeHtmlChar | script.js:20-27 | a single character escapes to its entity or to itself |
| Display.EscapeHtmlAppend | script.js:20-27 | escaping distributes over concatenation |
| Display.EscapeHtmlEach | script.js:20-27 | the chain of five `replaceAll` calls equals escaping each character on its own |
| Display.UnescapeEntity | script.js:20-27 | each entity decodes back to its character |
| Display.UnescapeChar | script.js:20-27 | each escaped character decodes back |
| Display.UnescapeEach | script.js:20-27 | decoding per-character escapes restores the text |
| Display.EscapeHtmlRoundTrip | script.js:20-27 | escaping loses nothing: unescaping gives back the original text |
| Display.Truncate | script.js:47-51 | text of at most 500 characters is unchanged; longer text keeps its first 500 characters followed by the marker |
| Display.TruncateIdempotent | script.js:47-51 | truncating twice equals truncating once |
| Display.FormatPreviewValue | script.js:47-67 | null and undefined preview as `''`; strings are truncated; numbers and booleans show as `String(v)`; a buffer with bytes shows as `base64:` and its truncated encoding; any other object shows as its truncated JSON text; everything but a number or boolean stays short |
| Display.PreviewBuffer | script.js:54-57 | a non-empty buffer previews as `base64:` and, when short enough, decodes back to its bytes |
| Display.PreviewNumberReadsBack | script.js:53 | the preview text of a number reads back as that number |
| Display.ErrorToString | script.js:977-981 | a string detail is shown as is; an object whose `error` member is truthy shows that member; an object with no or a falsy `error`, and any other value, is shown as JSON text |
| Client.NextOffset | script.js:499-503 | the next offset advances a full page when that stays at or below the last row, and otherwise is clamped to `max(len-1, 0)`; it never moves back from a valid offset |
| Client.PrevOffset | script.js:505-509 | the previous offset never goes below 0 or above the current offset |
| Client.PrevUndoesFullNext | script.js:499-509 | going back after a full page forward returns to the same offset |
| Client.Interval | script.js:475-479 | exactly the indices from `lo` below `hi` |
| Client.PageIndices | script.js:457-459 | exactly the row indices of the visible page |
| Client.Toggle | script.js:447-453 | toggling flips the one index and no other |
| Client.ToggleTwice | script.js:447-453 | toggling twice restores the selection |
| Client.TogglePage | script.js:456-473 | a fully selected page is cleared, otherwise the whole page is selected; other indices are untouched |
| Client.MoveToFront | script.js:789 | the new card is first, and the rest is the old order with that card removed, in the old order |
| Client.MoveToFrontIdempotent | script.js:789 | moving the same card to the front twice equals doing it once |
| Client.MoveToFrontDistinct | script.js:789 | the card order stays duplicate-free |
| Client.LoadFile | script.js:524-559 | a name ending in `.csv` (any case) is loaded as CSV text, one ending in `.json` as parsed JSON; any other name fails with 'Only CSV and JSON files are supported', and only those do |
| Client.Session.constructor | script.js:9-18 | the page starts with no file, schema, preview, selection, mapping or cards |
| Client.Session.SelectFile | script.js:603-621 | a `.csv` or `.json` file is taken and resets preview, offset and mapping; any other name changes nothing |
| Client.Session.LoadSchema | script.js:187-228 | a loaded schema resets the file, preview, offset and mapping; a failed load clears the schema only |
| Client.Session.SeedMapping | script.js:270-291 | the mapping becomes the seeded mapping when there are attributes and a header, otherwise stays as it was |
| Client.Session.SetMapping | script.js:335-338 | the chosen field is recorded for the attribute, then the mapping is reseeded when there are attributes and a header; preview, selection, offset, file, schema and cards are unchanged |
| Client.Session.ShowLoaded | script.js:561-568 | a load replaces header, rows and objects, resets offset and selection, and seeds the mapping |
| Client.Session.Verify | script.js:511-571 | missing file or schema fail first; otherwise the result is the file's load; on a failure mapping, offset and selection are unchanged (a no-keys JSON keeps its objects); file, schema and cards never change |
| Client.Session.ToggleRow | script.js:447-453 | the selection is toggled at the row; file, schema, preview, objects, offset, mapping and cards are unchanged |
| Client.Session.ToggleSelectAll | script.js:456-473 | the visible page is toggled as a whole; file, schema, preview, objects, offset, mapping and cards are unchanged |
| Client.Session.SelectAllRows | script.js:475-480 | every row index is added to the selection; everything else is unchanged |
| Client.Session.ClearSelection | script.js:482-485 | the selection becomes empty; everything else is unchanged |
| Client.Session.PreviewNext | script.js:499-503 | the offset becomes the next page offset (clamped to the last row); with no rows it is unchanged; everything else is unchanged |
| Client.Session.PreviewPrev | script.js:505-509 | the offset goes back by a page, not below 0; with no rows it is unchanged; everything else is unchanged |
| Client.Session.Upload | script.js:623-735 | the outcome is the upload form built from the state before the call; a sent form's rebuilt file replaces the selected one, a refused upload keeps it; nothing else changes |
| Client.Session.AddJobCard | script.js:789 | the new job's card moves to the front of the card order; nothing else changes |
| ServerGuards.IdentReMatchAcceptsNewline | app.py:39 | `IDENT_RE.match` accepts `users\n`, which is not an identifier |
| ServerGuards.IdentifierShape | app.py:39 | an identifier is non-empty, holds no comma or line break, and is unchanged by `strip` |
| ServerGuards.ValidateIdentifiers | app.py:45-48 | no error exactly when every item matches; otherwise the first item that does not match is reported |
| ServerGuards.ParseList | app.py:51-52 | no element is empty, holds a comma or has surrounding white space; every non-blank piece is kept stripped, and every element is a stripped piece |
| ServerGuards.ParseListPiece | app.py:51-52 | a text without a comma parses to its stripped self, or to nothing when it is blank |
| ServerGuards.ParseListComma | app.py:51-52 | parsing `piece,rest` gives the piece's name followed by the parse of `rest` |
| ServerGuards.ParseListJoin | app.py:51-52 | joining clean names with commas and parsing them gives the names back |
| ServerGuards.ParseListEmpty | app.py:51-52 | the empty text parses to no names |
| ServerGuards.ClientListParses | app.py:51-52 | the `columns` text the page sends parses back to the included attributes |
| ServerGuards.FirstOccurring | app.py:674-677 | the first forbidden keyword in list order that occurs in the text, or none |
| ServerGuards.QueryGuard | app.py:665-677 | an empty query is refused; a query passes exactly when its stripped upper-cased text starts with SELECT and holds no forbidden keyword; otherwise the first keyword found is reported |
| ServerGuards.ContainsShorter | app.py:676 | a text holding a word also holds each prefix of it |
| ServerGuards.ContainsAt | app.py:676 | text found at a position is contained |
| ServerGuards.ExecuteNeverReported | app.py:674-677 | `EXECUTE` is never the reported keyword, because `EXEC` is checked first |
| ServerGuards.ForbiddenKeywordRejects | app.py:674-677 | a query containing any forbidden keyword is refused |
| ServerGuards.NormalizedKeepsSpaceFree | app.py:670 | a query with no surrounding white space is normalised by upper-casing only |
| ServerGuards.UpperUpdate | app.py:670 | upper-casing `update` gives `UPDATE` |
| ServerGuards.UpdatedColumnRejected | app.py:670-677 | `SELECT updated_at FROM t` is refused because the keyword test is by substring |
| ServerGuards.KeywordAnyCaseRejected | app.py:665-677 | a query holding a forbidden keyword in any letter case, at any position and with any surrounding white space, is refused |
| ServerGuards.CreateTableGuard | app.py:291-293 | empty SQL is refused as required; otherwise it passes exactly when its stripped lower-cased text starts with `create table` |
| ServerGuards.UpperCharSpace | app.py:292 | upper-casing keeps white space white space |
| ServerGuards.TrimStartUpper | app.py:292 | trimming commutes with upper-casing |
| ServerGuards.TrimEndUpper | app.py:292 | trimming commutes with upper-casing |
| ServerGuards.LowerUpper | app.py:292 | lower-casing an upper-cased text equals lower-casing it |
| ServerGuards.CreateTableIgnoresCase | app.py:291-293 | the guard gives the same answer for a statement and its upper-cased form |
| ServerGuards.FoldSchemaRows | app.py:281-287 | the loop yields exactly the folded schema |
| ServerGuards.SchemaOfProperties | app.py:281-287 | one attribute per row in row order; the key holds exactly the PRIMARY KEY columns, all of them attributes |
| ServerGuards.Missing | app.py:415-439 | exactly the listed names that are absent from the other list, in their order |
| ServerGuards.CheckLists | app.py:400-439 | in source order: no columns gives 400 'columns is required'; no attributes gives 404 'table not found'; unknown columns give 400 'Invalid column(s) for table: ' with them joined by `, `; a key set unlike the table's gives the 'Expected: ' message with the table key or `None`; key columns outside the columns give their message with them listed; a pass means all checks hold |
| ServerGuards.CheckRequest | app.py:394-439 | an identifier that fails the test stops the request; otherwise the list checks decide |
| ServerGuards.CheckRequestNames | app.py:394-398 | a request that passes has a matching table name, and every requested column and key column matches |
| ServerGuards.ValidateUpload | app.py:394-449 | as written: the checks above, and an empty key is replaced by the table's key |
| ServerGuards.ValidateUploadCorrected | app.py:394-449 | full-match identifiers, and the table's key is taken only when all its columns were requested |
| ServerGuards.EffectiveColumns | app.py:317-319 | exactly the CSV header columns, in header order, that were requested |
| ServerGuards.EffectiveColumnsAllRequested | app.py:317-319 | when every CSV column was requested, all are effective |
| ServerGuards.CsvColumnCheck | app.py:315-325 | passes exactly when every key column is both in the CSV header and requested, giving the effective columns; otherwise the error is 'CSV is missing primary key column(s): ' followed by the missing key columns joined by `, ` |
| ServerGuards.SingleColumnAccepted | app.py:394-439 | one valid column with no key is accepted with an empty key list |
| ServerGuards.AutoPrimaryKeyFailsCsv | app.py:442-449 | when a key column of the table was not requested, the empty key is replaced by the table's key and the CSV check then fails |
| ServerGuards.SingleColumnWithoutKeyFails | app.py:394-449 | a table whose key column is not sent accepts the one-column request, and the CSV check of the resulting plan fails whenever the key is absent from the CSV |
| ServerGuards.AutoPrimaryKeyExample | app.py:442-449 | table `items(id, name)` with key `id`: columns `name` and an empty key pass validation, then the job fails |
| ServerGuards.CorrectedPlanPassesCsvCheck | app.py:315-325 | a corrected plan whose columns are all in the CSV header passes the CSV check |
| ServerGuards.Serialize | app.py:705-717 | the result is JSON-ready and equal to a JSON-ready input; None stays None; bytes become `base64:` and text decoding to them; lists and tuples become lists of the same length; dicts keep their size |
| Jobs.Without | app.py:91-92 | removing ids keeps exactly the others |
| Jobs.WithoutDistinct | app.py:91-92 | removing keeps the id order duplicate-free |
| Jobs.WithoutTwice | app.py:91-92 | popping ids one after another equals removing them together |
| Jobs.WithoutNothing | app.py:91-92 | removing nothing changes nothing |
| Jobs.WithoutAppend | app.py:91-92 | removal distributes over concatenation |
| Jobs.PublicView | app.py:95-110 | the view carries the job's id, status and update time |
| Jobs.CancelInvisibleInView | app.py:95-110 | a cancel request shows in the view only as a newer update time |
| Jobs.PublicViewDropsOnlyCancel | app.py:95-110 | two records give the same view exactly when they differ at most in the cancel flag |
| Jobs.WithKeyAppend | app.py:526 | views with one key distribute over concatenation |
| Jobs.WithKeyAbsent | app.py:526 | no view has a key no element has |
| Jobs.InsertMultiset | app.py:526 | inserting adds exactly the one view |
| Jobs.HeadBounds | app.py:526 | the first of a newest-first list is at least as recent as every later view |
| Jobs.InsertSorted | app.py:526 | inserting into a newest-first list keeps it newest first |
| Jobs.InsertWithKey | app.py:526 | the inserted view goes after all earlier views with the same key |
| Jobs.SortByRecencyProperties | app.py:523-526 | the listing is newest first (a missing time last), a permutation, and stable for equal keys |
| Jobs.NewUploadJob | app.py:457-465 | a new upload job is processing and is never purged |
| Jobs.FinishedRetention | app.py:84-89 | a finished job is purged exactly when it finished more than the retention ago |
| Jobs.UploadResult | app.py:311-358 | an unknown format fails with 'Only CSV or JSON supported'; a CSV failing the column check fails with its message; otherwise the insert outcome decides; the result is a success exactly when the format is known, the CSV check passes and the insert succeeds |
| Jobs.JobTable.constructor | app.py:37 | the table starts empty |
| Jobs.JobTable.Store | app.py:348 | storing a record keeps a known id's place and appends a new one |
| Jobs.JobTable.Purge | app.py:71-92 | exactly the expired jobs are removed (never a processing one), the rest are unchanged, and their order is kept |
| Jobs.JobTable.CreateUploadJob | app.py:451-465 | after the purge, the new processing job is added at the end |
| Jobs.JobTable.Complete | app.py:338-348 | the job becomes completed with its counts, `rows_skipped = rows_total - rows_inserted`, progress 100 and finish time |
| Jobs.JobTable.Fail | app.py:350-358 | the job becomes failed with the error text and finish time |
| Jobs.JobTable.FinishUpload | app.py:311-358 | the job record becomes completed with the outcome's counts, `rows_skipped`, progress 100 and the finish time when the upload result is a success, and otherwise failed with the result's message and the finish time; its other fields, the other jobs and the table order (a new id at the end) are kept |
| Jobs.JobTable.Cancel | app.py:606-617 | after the purge: an unknown id is not found, a non-processing job is ignored and unchanged, and only a processing job gets the cancel flag and a new update time |
| Jobs.JobTable.JobStatus | app.py:480-486 | after the purge: the public view of the job, or none when it is unknown |
| Jobs.JobTable.RecentJobs | app.py:517-530 | after a purge with the given hours, every remaining job's view, sorted newest first |
| Polling.PollTick | script.js:837-916 | polling stops on an error, a removed card, or a completed or failed job; it shows progress exactly for a processing job |
| Polling.StopsOnlyWhenFinished | script.js:854-886 | for a status the server reports, polling stops exactly for completed or failed; a canceled job keeps being polled |
| Polling.UnknownJobKeepsPolling | script.js:854-886 | the 404 body for an unknown job has no status, so the poller keeps polling it |

## Left out

- DOM building and rendering are left out: `renderPreview`, `createJobCard`, `updateStatus`,
  notifications, the drag-and-drop listeners, the API selector and the mapping widgets. They
  are presentation only.
- `fetch`, timers and the 2-second interval are left out. `Polling.PollTick` models one tick;
  the response is a parameter.
- `updateJobCardStack` and `formatBytes` are left out. They are layout and floating-point
  arithmetic.
- `maskUrl` and `mask_url` are left out. They rely on URL parsers.
- `String.fromCharCode`/`btoa` are modelled by `Base64.Encode` on the bytes.
  - The `null` result of `bufferObjectToBase64` (an exception) cannot occur on byte values.
  - An empty buffer encodes to `''`, which the page treats as failure.
- `JSON.parse` and `JSON.stringify` are parameters.
  - Exceptions from `JSON.stringify` (cycles, BigInt) are not modelled.
  - Floating-point numbers, duplicate object keys and the integer-key ordering of JavaScript
    objects are not modelled.
- String lengths count code points, not UTF-16 units. Case mapping covers ASCII letters only.
- The truncation marker in `formatPreviewValue` is modelled as the three characters U+201A,
  U+00C4 and U+00B6 that `script.js` holds (the UTF-8 bytes of `…` read as Mac Roman), not as
  the ellipsis the authors evidently meant.
- JavaScript property lookups also find names inherited from `Object.prototype`, such as
  `constructor` or `toString`; the model's maps and object members find nothing there. This
  affects four lookups:
  - `columnMapping` and `idxByCsv` are plain `{}` objects. For a table column so named the page
    never seeds a mapping and always counts it as mapped, while `Mapping.Seeded` seeds it and
    `Mapping.IncludedOf` includes it only when chosen.
  - `o?.[k] ?? ''` in the JSON preview rows: for an object lacking an own `constructor` member
    the page's cell is the `Object` function, where `Loader.Pad` gives `''`.
  - `obj?.[mapped]` in the JSON payload: the page sets the attribute to that function, which
    `JSON.stringify` then leaves out of the uploaded object, where `Payload.JsonCell` sends `''`.
- `new Uint8Array(v.data)` converts each element with `ToNumber`. The model reads strings (and
  arrays, through their text) as decimal integers or decimal fractions with an optional sign and
  surrounding white space; the fraction is cut toward zero. Exponents, `0x`/`0o`/`0b` prefixes,
  `Infinity` and numbers beyond the 53-bit precision of a double are not modelled; unreadable
  text gives 0, as `NaN` does.
- All database work is left out:
  - `copy_csv_with_pk_dedup`, `insert_json_with_pk_dedup`, connections, `get_identity_always_columns`;
  - the SQL text of `get_table_schema`, whose fetched rows are a parameter;
  - `execute_query` after its guard.
  - The outcome of the insert is a parameter of `Jobs.JobTable.FinishUpload`.
- `get_csv_header_columns` is left out (it relies on Python's `csv` module). Its columns are a
  parameter.
- `generate_job_id` is left out (it is random). `Jobs.JobTable.CreateUploadJob` requires an id
  that is unused after the purge.
- `utc_now` and ISO timestamps are left out. Times are integers, and `Stamp.Malformed` stands
  for a `finished_at` text that does not parse. The recent-jobs sort compares timestamps as
  numbers; ISO strings of one format compare as text in the same order.
- The transfer jobs are left out: `start_transfer`, `process_transfer_job`, `_job_mark`, and
  the source-database connection endpoints. They stream between databases. Their records use
  the same table, and `Jobs.JobTable.Cancel` covers their cancel request.
- FastAPI routing, CORS, background tasks and the HTTP status of an uncaught `ValueError` are
  left out. `ServerGuards.CheckRequest` reports an identifier failure as status 500 with the
  message text.
- ServerGuards.Serialize: states the shape of lists, tuples and dicts (lengths and keys)
  rather than their element-wise equality with serialized items. Non-string dict keys, floats
  and other Python objects are one opaque `PyOther` case.
- CsvCodec.RoundTrip: requires a non-empty list, because the empty list joins to `''`, which
  parses to one empty field. The page always sends at least one column.
- Jobs.JobTable.FinishUpload: uses one `now` for `updated_at` and `finished_at`, which the
  source reads from two clock calls. The source connects to the database before it tests the
  format; the model folds a connection failure into the insert outcome, so for a file of
  another format or a CSV failing the column check it reports that error instead.

## Findings

| source | as written | input that shows it | evidently intended | confidence | as-written member | corrected member |
|---|---|---|---|---|---|---|
| app.py:39 | `IDENT_RE.match` with a `$` anchor also accepts a name followed by one line feed | table `users\n` passes `validate_identifiers` | only full identifiers pass (`fullmatch` or `\Z`) | not executed | ServerGuards.IdentReMatchAcceptsNewline | ServerGuards.ValidateUploadCorrected |
| script.js:531 | empty header tokens are dropped by `filter(Boolean)`, so later names shift one column to the left | header `a,,b` with row `1,2,3`: the field mapped to `b` takes `2` | each header name keeps the column it names (`b` takes `3`) | not executed | HeaderGap.HeaderGapShiftsColumns | HeaderGap.CorrectedCellPicksColumn |
| app.py:442-449 | an empty `primary_key` is replaced by the table's key even when the key column was not sent, so the CSV job then fails | table `items(id, name)` with key `id`, columns `name`, primary_key empty: accepted, then "CSV is missing primary key column(s): id" | auto-detect the key only when its columns are among the uploaded ones | not executed | ServerGuards.AutoPrimaryKeyExample | ServerGuards.CorrectedPlanPassesCsvCheck |
