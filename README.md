# Spreadsheet ingestion of the requirements browser, in Dafny

The requirements browser reads its data from a published Google Sheet. The
sheet arrives as CSV text, and `src/services/googleSheetService.ts` turns it
into typed records in two steps:

- `parseCSV` splits the text on `'\n'`. A per-character loop then cuts each
  line into fields:
  - a `"` toggles an `inQuotes` flag and is dropped;
  - a `,` outside quotes ends the current field;
  - every other character, a `'\r'` included, is kept.
- The row loop of `getSheetData`:
  - skips the header row;
  - stops at the first row that has fewer than five columns or an empty
    column 0;
  - files every other row by its column-0 marker. A marker of `true`/`false`
    (in any case) makes a requirement record, and a marker starting with
    `content`, `stakeholder` or `link` makes a content, stakeholder or link
    record. Any other row is dropped.
  - collects the distinct non-empty document versions of the requirement
    rows, in first-seen order.

The project has three modules:

- `Strings` (`strings.dfy`): character counting and deletion,
  `Array.prototype.join`, `startsWith`, and ASCII `toLowerCase`.
- `Csv` (`csv.dfy`): the CSV splitter. `Scan` and `ParsedCsv` are
  specification functions. They are left folds that mirror the loops, so each
  loop keeps `state == Scan(line[..i])` as its invariant. `ParseLine` and
  `ParseCsv` are the loops themselves, proved equal to those functions. The
  field count, quote removal and join round trip are proved about the
  functions.
- `Sheet` (`sheet.dfy`): the record types as datatypes. `SheetOf` is the
  specification of the row loop: `Collect` over the scanned window of rows.
  `ClassifyRows` is the loop, with its early `break`, proved equal to
  `SheetOf`. `CollectFiles` proves the one-row-at-a-time filing equal to an
  independent per-kind definition, `ByKind`. That definition has one filter
  per collection and the distinct versions. The scan bounds, marker
  exclusivity and version properties are proved about these functions.
  `GetSheetData` chains `ParseCsv` and `ClassifyRows`.

Like the source, the model keeps the five result collections in one value,
`SheetData`. The loop passes it to `AddRow`, which returns it with at most
one collection extended. The source instead pushes onto four local arrays and
adds to a `Set`, and builds the result object at the end.

## Model

| member | source | states |
|---|---|---|
| Csv.ParseLine | src/services/googleSheetService.ts:69-87 | The per-character loop returns `LineFields(line)`. It has `SeparatorCount(line) + 1` fields, where a comma counts only if an even number of `"` precede it. No field contains `"`. Joining the fields with `,` gives the line with its `"` characters deleted. Where the line is cut is stated by `Csv.SplitAtSeparator` and `Csv.SingleField`. |
| Csv.Step | src/services/googleSheetService.ts:76-83 | One iteration of the loop: a `"` flips `inQuotes`, a `,` outside quotes pushes the current field and starts an empty one, and any other character is appended to the current field. Its properties are stated by the lemmas about `Scan` below. |
| Csv.ScanAfterSeparator | src/services/googleSheetService.ts:78-80 | After a comma read outside quotes, the fields built so far are finished, and the loop continues exactly as it would on the rest of the line alone. |
| Csv.SplitAtSeparator | src/services/googleSheetService.ts:73-86 | The line is cut at every comma outside quotes: when `a` has an even number of `"`, the fields of `a,b` are those of `a` followed by those of `b`. For example, `"a,b",c` gives `a,b` and then `c`. |
| Csv.SingleField | src/services/googleSheetService.ts:73-86 | A line with no comma outside quotes gives exactly one field, the line with its `"` deleted. Commas inside quotes stay in that field. |
| Csv.ParseCsv | src/services/googleSheetService.ts:65-89 | The result is one row per `'\n'`-separated line, so there are `CountChar(text, '\n') + 1` rows. It equals `ParsedCsv(text)`. Every row has at least one field, and no field contains `"`. |
| Csv.SplitLines | src/services/googleSheetService.ts:66 | `split('\n')` yields one more piece than there are newlines. No piece contains `'\n'`. Joining the pieces with `"\n"` gives the text back. |
| Csv.SplitJoin | src/services/googleSheetService.ts:66 | Splitting a `"\n"`-join of newline-free lines gives exactly those lines, so the split is also a right inverse of join. |
| Csv.QuoteParity | src/services/googleSheetService.ts:76-77 | The loop is inside quotes exactly when it has read an odd number of `"`. |
| Csv.FieldCount | src/services/googleSheetService.ts:73-86 | A line has one more field than it has commas outside quoted spans. |
| Csv.NoQuoteInFields | src/services/googleSheetService.ts:76-77 | No field contains a `"` character. |
| Csv.JoinFields | src/services/googleSheetService.ts:73-86 | Joining a line's fields with `,` gives the line with every `"` removed, so no character other than `"` is lost or added. Which commas separate is stated by `Csv.SplitAtSeparator`. |
| Csv.RoundTrip | src/services/googleSheetService.ts:73-86 | For a line without `"`, joining its fields with `,` gives the line back exactly. |
| Csv.CarriageReturnKept | src/services/googleSheetService.ts:81-83 | A trailing `'\r'` is appended to the last field rather than dropped. |
| Csv.TrailingNewline | src/services/googleSheetService.ts:66-67 | Text ending in `'\n'` parses to a last row `[""]`. |
| Strings.StartsWith | src/services/googleSheetService.ts:130 | `String.prototype.startsWith`, character by character. `Strings.StartsWithIsPrefix` ties it to the sequence prefix relation. |
| Strings.StartsWithIsPrefix | src/services/googleSheetService.ts:130 | `StartsWith(s, p)` holds exactly when `p` is a prefix of `s`. |
| Strings.ToLower | src/services/googleSheetService.ts:112 | `String.prototype.toLowerCase` on ASCII text: `Strings.ToLowerAt` and `Strings.LowerEqualsIgnoringCase` give its meaning. |
| Strings.ToLowerAt | src/services/googleSheetService.ts:112 | Lower-casing keeps the length and lower-cases each character where it stands. |
| Strings.RemoveAbsentChar | src/services/googleSheetService.ts:76-77 | Deleting a character that does not occur leaves the text unchanged. |
| Strings.LowerEqualsIgnoringCase | src/services/googleSheetService.ts:112 | Comparing `s.toLowerCase()` with a text that has no upper-case letter is a case-insensitive comparison. |
| Sheet.ClassifyRows | src/services/googleSheetService.ts:105-151 | The row loop with its early `break` produces `SheetOf(parsed)`. With one row or none, every collection is empty. |
| Sheet.AddRow | src/services/googleSheetService.ts:112-151 | The body of the loop for a row that does not stop it: the else-if chain on column 0 yields `FileRow(acc, row)`. A requirement row adds its version only if that version is non-empty and new. |
| Sheet.GetSheetData | src/services/googleSheetService.ts:94-151 | Parsing and then classifying gives `SheetOf(ParsedCsv(text))`. Text without a newline has only a header and gives empty collections. |
| Sheet.FileRow | src/services/googleSheetService.ts:112-151 | The loop body as a function: the row's record is appended to the collection its kind selects, and a requirement row's non-empty new version is appended to the versions. `Sheet.SingleRow` and `Sheet.CollectFiles` state its effect. |
| Sheet.Cell | src/services/googleSheetService.ts:120-126 | `row[i] \|\| ""`: a missing column reads as `""`. `Sheet.SingleRow` states the copy of the columns. |
| Sheet.EndsScan | src/services/googleSheetService.ts:109 | A row ends the scan when it has fewer than 5 columns or an empty column 0. `Sheet.ScannedRows` and `Sheet.RowsAfterStopIgnored` state its effect. |
| Sheet.KindOf | src/services/googleSheetService.ts:112-145 | The else-if chain on column 0, first match wins. `Sheet.MarkersExclusive`, `Sheet.FirstMatchOrderIrrelevant` and `Sheet.RequirementMarkerIgnoresCase` state its meaning. |
| Sheet.RequirementOf | src/services/googleSheetService.ts:118-127 | The requirement record of a row: `display` from column 0, and columns 1..7 with `""` for a missing column. `Sheet.SingleRow` states it. |
| Sheet.ContentOf | src/services/googleSheetService.ts:131-135 | The content record of a row: columns 1..3 with `""` for a missing column. |
| Sheet.StakeholderOf | src/services/googleSheetService.ts:139-142 | The stakeholder record of a row: columns 1..2 with `""` for a missing column. |
| Sheet.LinkOf | src/services/googleSheetService.ts:146-150 | The quick-link record of a row: columns 1..3 with `""` for a missing column. |
| Sheet.ScannedRows | src/services/googleSheetService.ts:107-109 | The scanned rows are a prefix of the input. None of them ends the scan. The row right after them, if any, ends the scan. |
| Sheet.ScannedRowsUnique | src/services/googleSheetService.ts:107-109 | Any stop-free prefix followed by a stop row, or by the end, is exactly the scanned part. |
| Sheet.HeaderIgnored | src/services/googleSheetService.ts:107 | Row 0 is never classified: replacing it leaves the result unchanged. |
| Sheet.HeaderOnlyIsEmpty | src/services/googleSheetService.ts:105 | With one row or none, every collection is empty. |
| Sheet.RowsAfterStopIgnored | src/services/googleSheetService.ts:109 | Cutting the rows at the first stop row leaves the result unchanged: no later row adds anything. |
| Sheet.MarkersExclusive | src/services/googleSheetService.ts:112-145 | The markers `true`/`false` (any case), `content`, `stakeholder` and `link` are pairwise exclusive. |
| Sheet.FirstMatchOrderIrrelevant | src/services/googleSheetService.ts:112-151 | Running the else-if chain in reverse order classifies every marker the same way. |
| Sheet.RequirementMarkerIgnoresCase | src/services/googleSheetService.ts:112 | A row is a requirement row exactly when column 0 equals `true` or `false` ignoring ASCII case. |
| Sheet.SingleRow | src/services/googleSheetService.ts:112-151 | One row adds exactly one record to the collection its marker selects and none elsewhere. For a requirement record, `display` holds exactly when column 0 is `true` in any case, and columns 1..7 are copied, with `""` for a missing column. |
| Sheet.Partition | src/services/googleSheetService.ts:112-151 | The four collection sizes plus the number of unrecognised rows equal the number of rows, so classification is exclusive. |
| Sheet.CollectionsConcat | src/services/googleSheetService.ts:112-151 | The collections of `a + b` are those of `a` followed by those of `b`, so each collection keeps row order. |
| Sheet.CollectFiles | src/services/googleSheetService.ts:107-151 | Filing rows one at a time gives the independent per-kind definition `ByKind`: for each kind, the records of the rows of that kind in row order, plus the distinct versions. |
| Sheet.VersionsFromRequirements | src/services/googleSheetService.ts:114-116 | Versions are the non-empty `documentVersion`s of the requirement records. Other row kinds never add one. |
| Sheet.VersionsOfMembers | src/services/googleSheetService.ts:114-120 | A value is among the versions of the records exactly when it is non-empty and some record carries it. |
| Sheet.DocumentVersions | src/services/googleSheetService.ts:101-181 | Each result's `documentVersions` contains exactly the non-empty versions of its requirement records. It has no repeats and lists them in the order first seen. |
| Sheet.Distinct | src/services/googleSheetService.ts:101 | Under `Array.from` of the version `Set`, a value is present exactly when it was added. |
| Sheet.DistinctNoRepeats | src/services/googleSheetService.ts:101 | `Array.from` of the `Set` holds each element once. |
| Sheet.DistinctFirstSeen | src/services/googleSheetService.ts:181 | `Array.from` of the `Set` lists elements in the order of their first `add`. |
| Sheet.DistinctAppend | src/services/googleSheetService.ts:115 | `add` appends a value only when it is not yet present. |
| Sheet.FirstIndex | src/services/googleSheetService.ts:181 | The index of the first occurrence: the element is there, and not earlier. |

## Left out

- `fetchCSV` and `CSV_URL` (src/services/googleSheetService.ts:50-63) are network I/O. `GetSheetData` takes the fetched text as a parameter. The `try`/`catch` blocks only log and rethrow errors from the fetch. The modelled part cannot fail, so there is no error path to model.
- `lastUpdated` (src/services/googleSheetService.ts:102, 153-166) depends on the current time, `Date` parsing and locale formatting. `SheetData` has no `lastUpdated` field.
- The `console.log`/`console.error` calls (src/services/googleSheetService.ts:170-174, 185) only log.
- `addEmailUpdate` and `recordDocumentApproval` (src/services/googleSheetService.ts:191-214) are stubs that log and return `true`. The `EmailUpdate` and `DocumentApproval` interfaces (30-39) are declared but used nowhere, and are not modelled either.
- The React components and the `useTheme` hook are user interface code and are not part of this model. The sort order of proposals and the hierarchical numbering do not appear in the service, and are not part of this model either.
- `Strings.ToLower` lower-cases ASCII letters only, whereas JavaScript's `toLowerCase` is full Unicode. The result is compared only with `"true"` and `"false"`. No non-ASCII character lower-cases to one of those letters, so the classification is the same either way.
- The loop's four arrays and its `Set` are one `SheetData` value threaded through the loop, rather than five separately mutated objects. Nothing else holds a reference to them before the function returns, so no aliasing is lost.
