# HR raw-data import and CSV export, modelled in Dafny

This project models the data pipeline of an HR dashboard. The pipeline takes a
monthly spreadsheet export of employee movements (hires, resignations,
transfers, retirements) as pasted text. It turns the text into per-employee
snapshots and a movement log, then writes them to a store. The model also
covers the CSV serialiser the dashboard uses for downloads. That serialiser
is the inverse of the importer's comma-mode tokenizer.

The layout follows the stages of `lib/import-utils.ts` and
`lib/export-utils.ts`:

- `Wrappers.dfy` — `Option`.
- `Text.dfy` — the JavaScript string operations the source relies on:
  - `trim` (with its whitespace set, including U+FEFF);
  - ASCII `toLowerCase`;
  - `includes`;
  - one-character `split` and `join`;
  - `padStart`;
  - insertion-ordered `Set`;
  - decimal printing.
- `Tokenizer.dfy` — delimiter detection and `parseLine`. Comma mode is a character loop proved against the recursive function `Fields`.
- `Normalize.dfy` — the six cell normalisers: date, movement type, name, position level, leaving reason, education level.
- `Reducer.dfy` — `parseRawData`:
  - the per-line reduction into the employee map, movement list and warnings;
  - the merge rule;
  - the whole parse as a left fold (`Fold`), which the imperative loop (`ReduceLines`, `ReduceLine`) is proved to compute.
- `Store.dfy` — the database as a class `Db`:
  - five reference tables, an employee map and a movement sequence;
  - one method per call the importer makes;
  - the fetches, inserts and the employee upsert may fail here as in the source, and a failed call changes nothing;
  - the duplicate-movement lookup is exact and cannot fail (see "## Left out").
- `Resolver.dfy`:
  - collecting organisation names;
  - `ensureMasterDataExists` / `ensure`;
  - `loadLookupCaches` / `toMap`;
  - `lookupId`.
- `Importer.dfy` — `importRawData`: the employee and movement loops and the result summary.
- `Export.dfy` — `downloadCSV`'s text construction, and the proof that it reads back through the comma tokenizer.

Behaviour of the code that the model keeps as written:

- **Misread involuntary resignations.** Text containing "involuntary resignation" is classified as a voluntary resignation, because "voluntary resignation" is a substring of it and is tested first. See `Normalize.InvoluntaryReadAsVoluntary`.
- **Column positions.** The parser reads education, leaving reason and remark from columns 22, 24 and 25. The downloadable template (`app/settings/raw-import/page.tsx:30-35`) has 25 columns, with those three at 21, 23 and 24. See `Reducer.TemplateColumnsShifted`.
- **Case variants.** Names that differ only in case within one import are both created. See `Resolver.CaseVariantsBothPlanned`.
- **Warnings count as errors.** Parser warnings are copied into the employee errors, so any warning makes `success` false.
- **`updated`** is always 0.
- **The `else if (isLeaving)` branch** of the merge covers every remaining case. Every movement type is either a new hire or a leaving type, so the no-op path is unreachable (`Reducer.NoIdleBranch`).

Some loop bodies are separate methods. Each is proved to take one step of its loop's specification, and the loop calls it:
- `Reducer.ReduceLine`;
- `Resolver.ToInsert`, the loop inside `ensure`;
- `Importer.ImportMovement`.

`Importer.ImportParsed` is the part of `importRawData` after parsing.

## Model

| member | source | states |
|---|---|---|
| Text.Trim | lib/import-utils.ts:238 | `trim()` removes exactly the leading and trailing JavaScript whitespace; the result is empty iff the input is all whitespace |
| Text.TrimSlice | lib/import-utils.ts:238 | the trimmed text is the slice that starts after the leading whitespace and is followed only by whitespace |
| Text.TrimUnique | lib/import-utils.ts:238 | that slice is the only one that starts there, ends in a non-whitespace character (or is empty) and leaves only whitespace behind |
| Text.TrimOfTrimmed | lib/import-utils.ts:30 | trimming text that has no whitespace at either end returns it unchanged |
| Text.ToLower | lib/import-utils.ts:30 | `toLowerCase()` keeps the length and lowers each ASCII capital |
| Text.Split | lib/import-utils.ts:238 | `split(c)` gives one more piece than there are separators; no piece holds the separator; joining the pieces with it rebuilds the input |
| Text.SplitJoin | lib/export-utils.ts:29 | splitting a join of separator-free pieces returns the pieces |
| Text.PadStart | lib/import-utils.ts:19 | `padStart(n, c)` has length max(len, n), ends with the input and is filled with `c` in front |
| Text.Distinct | lib/export-utils.ts:9 | `Array.from(new Set(xs))` has the same members as `xs`, without repeats |
| Text.DistinctFirstAppearance | lib/export-utils.ts:9 | the set lists its members in order of first appearance |
| Text.NatToString | lib/import-utils.ts:287 | the decimal text of a number: non-empty, digits only, no leading zero, and denotes the number |
| Text.TrimPadded | lib/import-utils.ts:238 | whitespace around a text that has no whitespace at either end is exactly what `trim()` removes |
| Text.CountAppend | lib/import-utils.ts:258 | appending one character adds one to its count and leaves other counts alone |
| Text.Contains | lib/import-utils.ts:32 | `includes`: a text that contains another is at least as long |
| Tokenizer.FirstNonBlank | lib/import-utils.ts:242 | the chosen line is empty iff every line is blank; otherwise it is the first line that is not blank |
| Tokenizer.IsTsv | lib/import-utils.ts:243-244 | tab mode iff the first non-blank line holds at least five tabs (more than five tab-separated pieces) |
| Tokenizer.ParseLine | lib/import-utils.ts:247-272 | tab mode returns the split on tabs; comma mode returns `Fields` of the line: a doubled quote inside quotes is one quote, other quotes toggle quoting, commas outside quotes end a field |
| Tokenizer.FieldCount | lib/import-utils.ts:254-270 | comma mode yields one more field than commas outside quotes |
| Tokenizer.LineFieldCount | lib/import-utils.ts:254-270 | the same count for a whole line read from the start |
| Tokenizer.FieldsWithoutQuotes | lib/import-utils.ts:254-270 | without quote characters the comma scan is the plain split on commas, continuing the current field |
| Tokenizer.UnquotedLine | lib/import-utils.ts:254-270 | a quote-free line reads as `split(',')` |
| Tokenizer.QuotesDoNotReachFields | lib/import-utils.ts:256-262 | on a line without doubled quotes, quote characters only switch quoting and appear in no field |
| Tokenizer.FieldQuotes | lib/import-utils.ts:256-262 | on any line, the fields hold exactly as many quote characters as there are doubled quotes read inside quotes; every other quote only switches quoting |
| Tokenizer.NoEscapesWithoutDoubledQuote | lib/import-utils.ts:257-258 | a line without two adjacent quotes has no escaped quote |
| Tokenizer.EmptyQuotedField | lib/import-utils.ts:254-270 | `a,"",b` reads as the three fields "a", "" and "b" |
| Tokenizer.DoubledQuoteOutsideQuotes | lib/import-utils.ts:256-262 | outside quotes a doubled quote opens and closes quoting: `a""b` reads as the one field "ab" |
| Tokenizer.Fields | lib/import-utils.ts:254-270 | the comma scan always yields at least one field, since the field being built is pushed at the end |
| Tokenizer.FieldsExtendCurrent | lib/import-utils.ts:254-268 | the first field continues the field being built: characters before the first comma outside quotes are appended to it |
| Normalize.MonthCode | lib/import-utils.ts:10-14 | the month table maps exactly the twelve lower-case English month names to "01".."12" |
| Normalize.ParseThaiDate | lib/import-utils.ts:6-17 | null for blank input, for "-", and for anything that is not three single-space-separated tokens after trimming |
| Normalize.ParseThaiDateKnownMonth | lib/import-utils.ts:16-22 | a date that parses has three tokens and a middle token whose lower case is a month name, so an unknown month gives null |
| Normalize.LowerKeepsSpaces | lib/import-utils.ts:20 | a name whose lower case is a month name is non-empty and has no space |
| Normalize.ParseThaiDateOfEnglishDate | lib/import-utils.ts:16-25 | "day Month year", with the month in any case and any whitespace around it, parses to year-MM-day, the day padded to two characters |
| Normalize.ParseThaiDateSingleDigitDay | lib/import-utils.ts:9-25 | a one-digit day gets one leading zero: "4 June 1999" parses to "1999-06-04" |
| Normalize.ParseThaiDateRejectsIso | lib/import-utils.ts:16-17 | an ISO date such as "2024-01-01" is one token and parses to null |
| Normalize.NameInjective | lib/import-utils.ts:29-40 | the six movement type names are pairwise distinct |
| Normalize.NewHireXorLeaving | lib/import-utils.ts:321-322 | every movement type is exactly one of new-hire or leaving |
| Normalize.Classify | lib/import-utils.ts:32-39 | first match wins in the order new hired, voluntary, involuntary/mutual contract, transfer+in, transfer+out, retirement, default New Hired: each outcome holds iff its test passes and every earlier one fails, and New Hired also iff no test passes |
| Normalize.ParseMovementType | lib/import-utils.ts:29-40 | text naming "new hired" in any case is New Hired whatever else it says |
| Normalize.ParseMovementTypeIgnoresPadding | lib/import-utils.ts:30 | surrounding whitespace does not change the movement type |
| Normalize.VoluntaryInsideInvoluntary | lib/import-utils.ts:33-34 | "voluntary resignation" occurs inside "involuntary resignation" |
| Normalize.InvoluntaryReadAsVoluntary | lib/import-utils.ts:33-34 | text containing "involuntary resignation" (and not "new hired") is classified Voluntary Resignation |
| Normalize.InvoluntaryOnlyFromMutualContract | lib/import-utils.ts:32-34 | the type is Involuntary Resignation iff the text contains "mutual contract" but neither "new hired" nor "voluntary resignation" |
| Normalize.TransferOutExample | lib/import-utils.ts:35-36 | "5 - Transfer - Out" is Transfer-Out |
| Normalize.BareTransferExample | lib/import-utils.ts:35-39 | "9 - Transfer" contains neither "in" nor "out" and falls through to New Hired |
| Normalize.Remove | lib/import-utils.ts:44 | `replace(/"/g, '')` leaves no quote and changes quote-free text not at all |
| Normalize.RemoveAppend | lib/import-utils.ts:44 | removal distributes over concatenation, so every other character is kept, in order |
| Normalize.CleanName | lib/import-utils.ts:43-45 | the cleaned name has no quote and no whitespace at either end, and is the trimmed input when the input has no quote |
| Normalize.CleanNameQuoted | lib/import-utils.ts:43-45 | a quote-free name that arrives between double quotes cleans to its inner text, trimmed |
| Normalize.CleanNameIdempotent | lib/import-utils.ts:43-45 | cleaning twice is cleaning once |
| Normalize.LeadingDigits | lib/import-utils.ts:50 | the `^\d+` scan stops at the first non-digit |
| Normalize.OrdinalPrefix | lib/import-utils.ts:50 | the `^\d+\.\s*` prefix is non-empty iff the text starts with digits and a dot, and then ends at the first character that is not whitespace |
| Normalize.ParsePositionLevel | lib/import-utils.ts:48-51 | the result is trimmed, and is the trimmed input when there is no `digits.` prefix |
| Normalize.TrimDropSpace | lib/import-utils.ts:49-50 | trimming after dropping leading whitespace gives the same result as trimming the whole text |
| Normalize.StripsOrdinal | lib/import-utils.ts:49-50 | "digits." followed by any text gives that text trimmed ("6. Officer" to "Officer") |
| Normalize.AfterLastTerminator | lib/import-utils.ts:58 | the position after the last line terminator, after which none occurs |
| Normalize.ReasonCode | lib/import-utils.ts:58 | a captured code is a non-empty run of digits at the start of the text, followed by a non-digit |
| Normalize.ReasonCodeMatchesPattern | lib/import-utils.ts:58-59 | the scan for a reason code succeeds iff the text matches `^(\d+)\s*-\s*.+$`, and then returns the digits |
| Normalize.ParseLeavingReason | lib/import-utils.ts:54-55 | null iff the text is blank |
| Normalize.LeavingReasonCases | lib/import-utils.ts:57-66 | for non-blank text: the digit code when the pattern matches; otherwise the trimmed text if it is at most 10 long, else "99"; never longer than the input |
| Normalize.LeavingReasonOfCode | lib/import-utils.ts:58-59 | digits, optional spaces, "-", optional spaces and some text give the digits |
| Normalize.LeavingReasonExample | lib/import-utils.ts:57 | "5 - ความก้าวหน้า" gives "5" |
| Normalize.EducationRule | lib/import-utils.ts:73-77 | only the five canonical levels are produced, one per keyword tier in priority order: each level holds iff its tier's keywords occur and no earlier tier's do, and no level iff no keyword occurs |
| Normalize.ParseEducationLevel | lib/import-utils.ts:70-78 | empty text gives empty text; otherwise, when a keyword rule fires on the trimmed, lower-cased text, the result is that rule's level |
| Normalize.EducationLevelShape | lib/import-utils.ts:72-79 | the result is a canonical level or a space-free prefix of the raw text, and it is the first space-separated piece when no rule fires |
| Normalize.FirstToken | lib/import-utils.ts:78 | `split(' ')[0]`: a space-free prefix of the text |
| Reducer.Lines | lib/import-utils.ts:238 | `text.trim().split('\n')` has at least one line |
| Reducer.NonBlank | lib/import-utils.ts:275 | the kept lines are exactly the non-blank ones |
| Reducer.StripCR | lib/import-utils.ts:283 | `replace(/\r$/, '')` removes one final carriage return and nothing else |
| Reducer.Col | lib/import-utils.ts:292-314 | `cols[k] \|\| ''`: the cell, or empty past the end |
| Reducer.ToRowColumns | lib/import-utils.ts:291-315 | the id, type and dates come from columns 2, 1, 17 and 18; education, leaving type, leaving reason and remark from 22 to 25; names have no quote |
| Reducer.ShortRowWarningExample | lib/import-utils.ts:286-287 | a three-cell first data line is reported as "Row 2: Not enough columns (3)" |
| Reducer.StatusFor | lib/import-utils.ts:325-328 | Active iff not leaving; Terminated iff Involuntary Resignation; Resigned or Terminated iff leaving |
| Reducer.Snapshot | lib/import-utils.ts:334-351 | a replacing snapshot has the row's id, keeps a prior Resigned or Terminated status and otherwise takes the row's status; a new-hire row clears the resigned date |
| Reducer.Merge | lib/import-utils.ts:331-356 | the ids become the old ids plus the row's; other snapshots are unchanged; a first sighting or new-hire row replaces the snapshot; a leaving row for a known id only sets status and resigned date |
| Reducer.MovementOfFields | lib/import-utils.ts:359-374 | the movement has the row's id and type, organisation 1, the resigned date when leaving and otherwise the onboard date, and a null detail iff the remark is empty |
| Reducer.AcceptConsistent | lib/import-utils.ts:331-374 | accepting a row keeps the order list and the map in step: same ids, each snapshot under its own id, no repeats |
| Reducer.StepLineConsistent | lib/import-utils.ts:280-375 | one line keeps that agreement and adds at most one movement or warning |
| Reducer.FoldConsistent | lib/import-utils.ts:280-375 | the fold over the data lines keeps the order list and the map in step, with no more movements plus warnings than lines |
| Reducer.FoldStep | lib/import-utils.ts:280-281 | the fold over one more line is one step on the shorter fold |
| Reducer.KeptRows | lib/import-utils.ts:286-318 | the rows that pass the column-count and id checks, at most one per line |
| Reducer.StepLineEffect | lib/import-utils.ts:286-374 | a short line adds only the warning "Row i+2: Not enough columns (n)"; a line without id changes nothing; a kept line appends its movement and records its id |
| Reducer.MovementsOfAppend | lib/import-utils.ts:363-374 | one more kept row appends exactly its movement |
| Reducer.FoldMovements | lib/import-utils.ts:363-374 | the movements are exactly one per kept row, in file order |
| Reducer.FoldWarnings | lib/import-utils.ts:286-289 | the warnings are exactly one per short line, in file order |
| Reducer.FoldOrder | lib/import-utils.ts:331-378 | the employees are keyed by the kept rows' ids, in order of first appearance |
| Reducer.StepKeepsTerminal | lib/import-utils.ts:343-355 | a Resigned or Terminated employee stays Resigned or Terminated after any line |
| Reducer.StickyTerminal | lib/import-utils.ts:343-355 | once Resigned or Terminated, an employee stays so for the rest of the file |
| Reducer.NoIdleBranch | lib/import-utils.ts:332-356 | for a known id every row that is not a new hire takes the leaving branch |
| Reducer.TemplateColumnsShifted | lib/import-utils.ts:311-314 | on a 25-column template row the parser reads education and leaving reason one column to the right and gets an empty remark |
| Reducer.TemplateHeaderShifted | app/settings/raw-import/page.tsx:30-35 | read as a row, the template header gives "Leaving Type" as the education, "Remark" as the leaving reason and an empty remark |
| Reducer.Values | lib/import-utils.ts:378 | `Array.from(employeeMap.values())` lists the snapshots in insertion order |
| Reducer.EmployeesInFirstAppearanceOrder | lib/import-utils.ts:377-381 | one employee per distinct kept id, in order of first appearance |
| Reducer.HireThenResign | lib/import-utils.ts:331-356 | a hire row then a voluntary resignation row of the same id give a Resigned snapshot with the hire's names and onboard date and the second row's resigned date |
| Reducer.ParseRawData | lib/import-utils.ts:233-382 | returns exactly the employees, movements and warnings of the fold over the data lines |
| Reducer.ReduceLines | lib/import-utils.ts:280-375 | the row loop computes the fold |
| Reducer.ReduceLine | lib/import-utils.ts:281-374 | one pass of the row loop computes one fold step |
| Reducer.MergeRow | lib/import-utils.ts:331-356 | the update-or-create step appends the id exactly when it is new and leaves the map equal to the merge rule's result |
| Store.HasKeyExtended | lib/import-utils.ts:460-471 | a stored movement key stays stored when movements are appended |
| Store.HasKeyGrown | lib/import-utils.ts:460-471 | a stored key stays stored as the movement log grows |
| Store.Numbered | lib/import-utils.ts:213 | inserted reference rows take consecutive ids and keep name, code and active flag |
| Store.Db.FetchAll | lib/import-utils.ts:200 | a successful fetch returns exactly the stored rows of the table (the same call loads each cache) |
| Store.Db.InsertMany | lib/import-utils.ts:213-214 | either all rows are appended with fresh ids or, on error, the table is unchanged; nothing else changes |
| Store.Db.Upsert | lib/import-utils.ts:442-444 | on success the record replaces the one with its id; on error nothing changes |
| Store.Db.ExistsMovement | lib/import-utils.ts:460-466 | found iff a stored movement has the same (employee, type, effective date) |
| Store.Db.InsertMovement | lib/import-utils.ts:473-475 | on success the movement is appended; on error nothing changes |
| Resolver.NamesIn | lib/import-utils.ts:397-403 | the names listed for a table are exactly the non-empty names employees give for it |
| Resolver.MasterDataMembers | lib/import-utils.ts:397-403 | each collected set holds every non-empty name the employees mention, once |
| Resolver.MasterDataStep | lib/import-utils.ts:398-402 | one more employee adds its name when it is non-empty and new |
| Resolver.CollectMasterData | lib/import-utils.ts:388-403 | the collection loop builds the per-table sets in first-mention order |
| Resolver.ExistingNames | lib/import-utils.ts:200-201 | the lower-cased names of the fetched rows, or no names if the fetch failed |
| Resolver.PlanInserts | lib/import-utils.ts:203-210 | exactly the names whose lower case is not among the existing names, in order, each as an active row with the name as code on code tables |
| Resolver.PlanInsertsDistinct | lib/import-utils.ts:203-210 | distinct names are planned at most once each |
| Resolver.CaseVariantsBothPlanned | lib/import-utils.ts:203-210 | two unknown names that differ only in case are both planned |
| Resolver.ToInsert | lib/import-utils.ts:203-210 | the `toInsert` loop computes the plan |
| Resolver.Ensure | lib/import-utils.ts:196-217 | nothing for no names; otherwise the table gains the plan against the fetched names (or against none if the fetch failed), or nothing if the insert failed; other tables, employees and movements are unchanged |
| Resolver.EnsureAddsOnlyNames | lib/import-utils.ts:205-208 | every row an ensure call adds is active, carries one of its names and not an existing one, and has the name as code exactly on code tables |
| Resolver.EnsureMasterDataExists | lib/import-utils.ts:219-225 | each table keeps its rows and may only gain rows; employees and movements are unchanged |
| Resolver.CacheLookup | lib/import-utils.ts:168-177 | a key is cached iff some row writes it (lower-cased name, or lower-cased non-empty code on code tables), and holds the id of the last such row |
| Resolver.ToMap | lib/import-utils.ts:168-177 | the map loop builds the cache of the fetched rows, an empty map if the fetch failed |
| Resolver.LoadLookupCaches | lib/import-utils.ts:159-186 | each cache is its table's cache, with codes for the three code tables, or empty |
| Resolver.LookupId | lib/import-utils.ts:228-231 | an id iff the name is non-empty and its lower case is cached with a non-zero id |
| Resolver.ResolvesIffStored | lib/import-utils.ts:168-231 | with positive ids, a name resolves iff some row of the table writes its lower-cased form |
| Resolver.LastWriter | lib/import-utils.ts:168-177 | a key some row writes has a last such row |
| Resolver.CreatedNameResolves | lib/import-utils.ts:196-231 | a name created by a successful ensure call resolves once the table is reloaded |
| Importer.OrNull | lib/import-utils.ts:430-431 | `value \|\| null` is null exactly for the empty string |
| Importer.ToRecord | lib/import-utils.ts:425-440 | the record copies the snapshot, has null gender and education exactly when they are empty, and resolves each organisation name through its cache |
| Importer.EmployeeError | lib/import-utils.ts:447 | the employee error names the employee: its id sits between "Employee " and ": " |
| Importer.MovementError | lib/import-utils.ts:478 | the movement error names the employee: its id sits between "Movement for " and ": " |
| Importer.ImportEmployees | lib/import-utils.ts:418-454 | warnings come first in the errors; there is one error per failed upsert, naming the employee; inserted counts the successes and never exceeds total; updated stays 0; when all succeed each id holds the record of its last snapshot; ids not in the import are untouched |
| Importer.KeysDistinctAppend | lib/import-utils.ts:460-475 | appending a movement with a new key keeps the stored keys distinct |
| Importer.KnownCount | lib/import-utils.ts:460-471 | the number of movements whose key is already stored is at most their number |
| Importer.KnownCountStep | lib/import-utils.ts:457-471 | counting one more movement adds one iff its key is stored |
| Importer.GrowsByAppend | lib/import-utils.ts:473-481 | appending a movement with a new key extends the log by one without repeating a key |
| Importer.InsertAll | lib/import-utils.ts:456-481 | reference run of the movement loop: each movement tried once in file order, skipped when its key is already stored, so the first movement of a key wins; the log only grows, by at most one entry per movement |
| Importer.InsertAllStoresAll | lib/import-utils.ts:456-481 | after the reference run every key of the movements is stored |
| Importer.InsertAllKeepsFirst | lib/import-utils.ts:459-470 | of two movements sharing a new key, the first is stored and the second skipped |
| Importer.LoopStep | lib/import-utils.ts:457-485 | whatever the outcome for one movement, the loop's counts, log growth, error naming, stored keys and, while there is no error, agreement with the reference run carry over to the next index |
| Importer.LoopDone | lib/import-utils.ts:457-485 | the loop state after the last movement gives the loop's results, including agreement with the reference run when there was no error |
| Importer.ImportMovement | lib/import-utils.ts:458-484 | a movement whose key is stored is skipped with no error; otherwise it is appended, or on error nothing changes; afterwards, unless there was an error, its key is stored |
| Importer.ImportMovements | lib/import-utils.ts:457-485 | the log only grows, by the inserted movements, without repeating a key; already-stored movements produce neither a count nor an error; each error names a movement's employee; with no errors every key is stored and the log is exactly the reference run `InsertAll` of the old log and the movements, in file order; if every key was stored beforehand nothing is inserted |
| Importer.ImportParsed | lib/import-utils.ts:388-490 | totals are the parsed counts; the caches are those of the final reference tables, or empty; when every upsert succeeds each id holds the record of its last snapshot made with those caches; ids not in the import are untouched; warnings lead the employee errors, with one more error per failed upsert, each naming an employee; the movement log grows by the inserted movements, all from the import, and inserted plus errors plus already-stored movements never exceed the total; each movement error names an employee; with no movement error the log is the reference run `InsertAll` of the old log and the parsed movements; updated is 0; success iff both error lists are empty, so any warning means failure; reference tables only grow |
| Importer.ImportRawData | lib/import-utils.ts:384-491 | all of the above, stated against the employees, movements and warnings of the parse of the text |
| Importer.ImportTwice | lib/import-utils.ts:457-471 | importing the same text again after a run without movement errors inserts no movement and reports no movement error |
| Export.KeysOf | lib/export-utils.ts:9 | `Object.keys(row)` lists the row's keys in order |
| Export.FlatKeys | lib/export-utils.ts:9 | `flatMap(Object.keys)` holds exactly the keys of all rows |
| Export.AllKeysHeader | lib/export-utils.ts:9 | the header keys are every key of every row, once each, in order of first appearance |
| Export.Get | lib/export-utils.ts:17 | `row[key]` is the value of the key's entry, or undefined when the row lacks it |
| Export.Escape | lib/export-utils.ts:24 | doubling quotes adds one character per quote and changes no other character |
| Export.Cell | lib/export-utils.ts:18-24 | a cell is empty exactly for null and undefined; a text is between double quotes |
| Export.CellsOf | lib/export-utils.ts:16-25 | one formatted cell per value, in order |
| Export.RowValues | lib/export-utils.ts:16-17 | the row's values, one per header key, in header order |
| Export.FormatRows | lib/export-utils.ts:15-26 | one formatted line per row, in order |
| Export.QuotedKeys | lib/export-utils.ts:12 | each key between double quotes |
| Export.CsvContent | lib/export-utils.ts:2-29 | no text for absent or empty data; otherwise the text starts with the byte-order mark, which `trim()` treats as whitespace |
| Export.EscapeRoundTrip | lib/export-utils.ts:24 | inside quotes, the importer's comma tokenizer reads an escaped value and its closing quote back as the value, with quoting off |
| Export.CellRoundTrip | lib/export-utils.ts:20-24 | read by the importer's comma tokenizer, a cell followed by anything but a quote reads back as the value's text, or empty for null and undefined |
| Export.CellsRoundTrip | lib/export-utils.ts:25 | comma-joined cells read back through the importer's comma tokenizer as the list of texts |
| Export.RowRoundTrip | lib/export-utils.ts:15-26 | every exported row reads back in comma mode as exactly one field per header key: the text, or empty for null, undefined and missing |
| Export.HeaderRoundTrip | lib/export-utils.ts:12 | the header reads back through the importer's `parseLine` as the keys when no key contains a quote |
| Export.JoinKeepsOut | lib/export-utils.ts:25 | joining pieces without a character, with a separator without it, gives text without it |
| Export.RowHasNoLineFeed | lib/export-utils.ts:15-26 | a row whose values hold no line feed formats to one line |
| Export.ContentLines | lib/export-utils.ts:29 | without line feeds in the data, the text after the mark splits into the header and one line per row |

## Left out

- The Supabase client and network: the store is the abstract class `Store.Db`. Each call's success is a free choice. The text of a store error message is an arbitrary string.
- Exceptions thrown inside the `try` blocks and turned into `"${e}"` messages are not modelled. Failures are modelled only as returned errors.
- `Promise.all` in `ensureMasterDataExists` and `loadLookupCaches` is modelled as sequential calls, since the five tables are independent. Races between concurrent imports are out of scope.
- PostgREST details of the duplicate check are not modelled:
  - the `.single()` error when several rows match;
  - `eq` against a null effective date.

  `Store.Db.ExistsMovement` is exact key equality.
- Store.Db.ExistsMovement: cannot fail. In the source (`lib/import-utils.ts:460-466`) the query's error is ignored, so a failed or ambiguous duplicate query reads as "not found" and the movement is inserted again. The model does not express that path.
- Database constraints are not modelled. Foreign keys, NOT NULL columns and type checks are only visible as the arbitrary failure of a call.
- `console.log`, `console.error` and `console.warn`, and the Blob/URL/DOM download in `lib/export-utils.ts:31-42`, which is also the only use of the `filename` parameter.
- Normalize.MonthCode: only the twelve month names are accepted. The JavaScript object lookup would also find inherited keys such as "constructor".
- Lengths are counted in code points. `padStart(2, '0')` and the `length <= 10` test count UTF-16 code units; the two agree for text in the Basic Multilingual Plane.
- `toLowerCase` is modelled as ASCII-only. Thai text has no case.
- Export.Value: the model takes `String(value)` as given. Number, date and object formatting is not modelled.
- Export.Row: a row is a list of entries in `Object.keys` order. The reordering JavaScript applies to integer-like keys is not modelled.
- The in-place update of the stored snapshot object (`existingEmp.current_status = …`, lines 354-355) is modelled as a map update. Only the map holds the object, so no aliasing is lost.
- Resolver.EnsureMasterDataExists: states only that each table keeps its rows and can only gain rows. The content of what each table gains is stated by `Resolver.Ensure` for the single call.
- Importer.ImportEmployees: the stored record for each id is stated only when every upsert succeeded. On partial failure only the untouched ids are stated.
- Tokenizer.QuotesDoNotReachFields: holds only for lines without doubled quotes. `Tokenizer.FieldQuotes` states the quote count for every line, counting each doubled quote read inside quotes.
- Export.Get: a key that is not an own entry of the row gives undefined. In JavaScript `row[key]` also reads inherited properties such as "constructor" or "toString".
- Importer.ImportParsed: does not state that each collected name resolves after the ensure step, since an ensure call may fail. `Resolver.CreatedNameResolves` states it for a successful call.
- Export.HeaderRoundTrip: holds only for keys without a quote character, because the export quotes keys without escaping them.
- Export.ContentLines: holds only when no key or value contains a line feed. A quoted line feed would start a new line, and the importer splits lines before it tokenizes them.
