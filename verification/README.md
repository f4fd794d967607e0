# Movie collection: a Dafny model of its core

The movie collection is a browser application written in a single script,
`movie.js`. It keeps a list of watched films in local storage and fills in
missing posters, directors, years and countries from a metadata provider. It
also imports and exports the list as CSV. This project models the parts of
that script that are plain computation:

- the CSV field codec (`escapeCSVValue` and the row tokenizer of `parseCSV`);
- the decoding of a whole file (`parseCSV`), with its structural errors and the rows it drops;
- the export (`exportCSV`): its sort order, column layout and line building;
- the round trip from export back to import, as far as it goes;
- the import (`importCSV`): duplicate detection against the store, and the import-time detail fill;
- the back-fill (`fetchAllMissingDetails`): selection, batches of eight with pauses, the merge of fetched details, and the counters;
- the extraction in `fetchMovieDetailsFromTmdb`: request fallbacks, poster address, year, country preference and directors;
- the store operations: delete one, delete a selection, save an edit, add a record, and save the API key.

Modules follow the script's structure:

- `Wrappers`: `Option` and `Result`.
- `Text`: the JavaScript string primitives the script relies on (`trim`, `split`, `join`, `String(n)`, `parseInt`).
- `Movies`: the record, the detail record, the constants and the shared predicates.
- `CsvField`, `CsvColumns`, `CsvDecode`, `CsvExport` and `CsvRoundTrip`: the CSV codec.
- `Enrich`: the merge rule shared by the back-fill and the import.
- `Tmdb`: the lookup.
- `Backfill`, `Import` and `Store`: the operations.

Conventions:

- An absent string is `""`; `null`, `undefined` and the empty string are alike under the script's truthiness tests.
- An absent year is `0`; every `|| null` turns 0 into `null`.
- Ids are strings, as the store operations compare them through `String(...)`.
- The browser services are parameters, collected in `Movies.Env`:
  - date validity and time (`new Date(s).getTime()`);
  - the rating's `parseFloat`;
  - fresh ids;
  - the current timestamp.
- The provider is a lookup function from title to `Details`. In `Tmdb` it is two reply functions, one for the search and one for the details request.
- The concurrent lookups of a batch are modelled as a fold in order. Each continuation runs to completion, and each touches only the record with its own id.
- Which posters count as missing is a `PosterRule`:
  - the import and the add form count only the empty address;
  - the back-fill also counts the placeholder image.
  - The back-fill's proofs hold for any placeholder address, so `Backfill.FetchAllMissing` takes the address as a parameter. The script's value is `Movies.DefaultPosterUrl`.

## Model

| member | source | states |
|---|---|---|
| CsvField.Escape | movie.js:353-362 | a value holding a comma, newline or quote is wrapped in quotes with every inner quote doubled; any other value is returned unchanged |
| CsvField.Scan | movie.js:229-241 | the tokenizer loop always pushes at least one more field than it started with (the last field is pushed after the loop) |
| CsvField.ScanPushesTrimmed | movie.js:229-241 | the loop keeps the fields already pushed and trims every field it pushes |
| CsvField.Tokenize | movie.js:229-241 | a row yields at least one field, each trimmed; `RowRoundTrip` shows the loop undoes the export's escaping |
| CsvField.EscapeAvoids | movie.js:353-362 | escaping introduces no character other than the double quote |
| CsvField.RowRoundTrip | movie.js:229-243 | tokenizing and cleaning a line of escaped values gives back exactly those values, in number and order, when each has no backslash, no surrounding white space and no surrounding quotes |
| CsvField.RowColumns | movie.js:241-243 | a row has at least one column, and each column is the cleaned token at the same position |
| CsvField.Clean | movie.js:243 | the cleaned column is trimmed; a trimmed column not wrapped in quotes is unchanged |
| CsvField.WrappedValueLosesQuotes | movie.js:243 | a value that is itself wrapped in quotes comes back without them, trimmed |
| CsvField.NewlineSplitsQuotedField | movie.js:204 | a value with a newline is escaped into a quoted field that the line split cuts in two |
| CsvDecode.NonEmpty | movie.js:204 | `filter(Boolean)` keeps exactly the non-empty lines |
| CsvDecode.NonEmptyAppend | movie.js:204 | the filter keeps line order: filtering a concatenation filters each part, so the first non-empty line is the header |
| CsvDecode.LinesOfJoin | movie.js:204 | non-empty lines without newlines, joined by newlines, are read back as they were |
| CsvDecode.HeaderName | movie.js:208 | a header cell never grows; a cell with no quote after trimming is its trimmed text (so a trailing carriage return is dropped), and a cell wrapped in quotes after trimming loses exactly those two quotes |
| CsvDecode.HeaderNames | movie.js:208 | the header splits on every comma, quoted or not, and each name is its cleaned cell |
| CsvDecode.MissingRequired | movie.js:211-216 | the reported names are exactly the required columns absent from the header, each once (at most two), in the title, date order |
| CsvDecode.MissingBothMessage | movie.js:214-215 | a header with neither required column gets the message naming both, title first |
| CsvDecode.LastIndexOf | movie.js:219 | the position a header name maps to is its last occurrence, and there is none exactly when the name is absent |
| CsvDecode.ColumnValue | movie.js:220-224 | the value under a column is the cell at that column's last position when the row is long enough, and empty when the column is absent or the row ends before that position |
| CsvDecode.LeadingYear | movie.js:251 | the year is the decimal value of the column's first four characters when they are all digits, and 0 otherwise |
| CsvDecode.LeadingYearOfNumeral | movie.js:251 | a column starting with a four-digit year, such as a full date, gives that year whatever follows it |
| CsvDecode.DecodeRow | movie.js:246-265 | a row is dropped exactly when its title or date is empty or the date is invalid; a kept record has the row's title, date, review, country, link, director and poster cells, the rating read from its rating cell, the year read from its year cell, the row's fresh id and the import's timestamp |
| CsvDecode.KeptAppend | movie.js:245-266 | the map-then-filter over rows keeps row order: the records of two runs of rows are those of the first followed by those of the second |
| CsvDecode.KeptOrigin | movie.js:245-266 | every record kept is the result for one of the rows, numbered by its position |
| CsvDecode.DecodeRowsAll | movie.js:245-266 | when every row decodes, the records are the rows' records in row order |
| CsvDecode.DecodedOrigin | movie.js:259-266 | every decoded record comes from one of the data rows and has a title and a valid date |
| CsvDecode.ParseCsv | movie.js:203-216 | fewer than two non-empty lines fail with the row error; otherwise the parse fails exactly when a required column is missing, with exactly the missing names; it returns at most one record per data line |
| CsvDecode.ParseCsvRows | movie.js:218-266 | a file with both required columns decodes its data lines under its header |
| CsvColumns.ExportColumnsLayout | movie.js:379 | the export header has twelve distinct simple names, with the nine columns an import reads at fixed positions |
| CsvExport.SortKey | movie.js:373 | a missing date sorts as time 0, which is valid; any other date sorts by its time, or as invalid |
| CsvExport.ExportCompareMeaning | movie.js:372-376 | the export comparator agrees with one total preorder: invalid after valid, valid dates newest first, and it is antisymmetric |
| CsvExport.SortForExport | movie.js:372-376 | the export order is a permutation of the store that is ordered by the comparator |
| CsvExport.InsertStable | movie.js:372-376 | inserting a record puts it ahead of the records with the same sort key and keeps their order |
| CsvExport.SortForExportStable | movie.js:372-376 | the sort is stable: the records with any one sort key come out in store order |
| CsvExport.OrderedMeaning | movie.js:372-376 | in export order, every valid date precedes every invalid one, valid dates do not increase, and a record without a date follows every record with a positive time |
| CsvExport.YearText | movie.js:384 | an absent year exports as the empty cell, a positive one as its decimal numeral and a negative one as a minus sign followed by the numeral of its magnitude (`String(year)`) |
| CsvExport.DataLines | movie.js:382-387 | there is one line per record, the record's twelve escaped values in column order joined by commas |
| CsvExport.ExportCsv | movie.js:367-390 | an empty store exports nothing, any other store produces a file |
| CsvExport.DisplayPutsInvalidFirst | movie.js:482-490 | the list view's comparator puts a record with an invalid date before one with a valid date |
| CsvExport.ExportPutsValidFirst | movie.js:372-376 | the export comparator puts the valid date first and agrees with the list view's comparator on two valid dates |
| CsvRoundTrip.Reimported | movie.js:246-265 | a re-imported record keeps title, date, review, year, country, link, director and poster |
| CsvRoundTrip.ExportThenImport | movie.js:367-390 | importing an export gives back every record in export order, each with its own columns and a fresh id, timestamp and re-read rating, provided each record is importable, has an absent or four-digit year, and has cells without newlines, backslashes, surrounding spaces or surrounding quotes |
| Movies.FindById | movie.js:156 | the index found is the first record with the id, or -1 exactly when no record has it |
| Enrich.MergeDetails | movie.js:156-163 | a field is written exactly when the lookup supplied it and the record's field is missing, the poster being missing as the rule says |
| Enrich.MergeWrites | movie.js:156-163 | the merged record is the old one with the flagged fields taken from the lookup; every other field, and every detail present, is unchanged |
| Enrich.KeepsPresentTransitive | movie.js:156-163 | two fill-only steps together only fill in |
| Enrich.MergeComplete | movie.js:153 | a record missing nothing is left alone and counted as not updated |
| Enrich.MergeIdempotent | movie.js:156-163 | merging the same result a second time writes nothing, unless the result's poster is itself the placeholder |
| Enrich.MergeCompletes | movie.js:156-163 | a result with all four details, whose poster is not the placeholder, leaves the record complete |
| Enrich.PlaceholderOnlyDifference | movie.js:311-314 | the import's merge and the back-fill's merge agree on every record except one showing the placeholder, which only the back-fill replaces |
| Tmdb.FirstWithIso | movie.js:101 | `find` by country code returns the first entry with that code, or none exactly when no entry has it |
| Tmdb.PickCountry | movie.js:100-103 | the country is an entry of the list: a Chinese one if there is one, else an American one if there is one, else the first |
| Tmdb.DirectorsAppend | movie.js:105-108 | directors are found member by member, so those of a concatenated crew are those of each part, in order |
| Tmdb.Directors | movie.js:105-107 | the director list is no longer than the crew; with `DirectorsAppend` and `DirectorsSingle` it is the crew filtered by job, in crew order |
| Tmdb.DirectorsMembers | movie.js:105-107 | a name is listed exactly when some crew member with that name has the job `Director` |
| Tmdb.DirectorsSingle | movie.js:106 | a crew member contributes its name exactly when its job is Director |
| Tmdb.ReleaseYearOfDate | movie.js:98 | a release date starting with four digits gives the year those digits denote |
| Tmdb.Extract | movie.js:95-108 | the poster is the base address followed by the path, or absent without a path; a non-empty release date gives the year of its first four characters, an empty one none; a country is always the name of a listed country, the preferred one; the directors are joined by a comma and a space, or absent |
| Tmdb.FetchDetails | movie.js:60-117 | no key or title, a failed search, no results, a first result without an id, or a failed details request each give the empty result; a non-empty result implies a successful search with a first result and a successful details request |
| Tmdb.FetchUsesFirstResult | movie.js:77-108 | a successful lookup is the extraction of the first search result's details |
| Tmdb.BackfillMergeOfLookupIdempotent | movie.js:160-163 | merging a lookup result a second time under the back-fill's rule, which counts the placeholder image as missing, writes nothing and changes nothing |
| Backfill.NeedingMembers | movie.js:126-128 | the selection holds exactly the positions of records missing a detail, in increasing order |
| Backfill.Needing | movie.js:126-128 | the selection filter yields positions inside the store; `NeedingMembers` shows they are exactly the incomplete records, in order |
| Backfill.Selection | movie.js:126-128 | every selected position is a position of the store |
| Backfill.Slices | movie.js:139-140 | the selection is cut into ceil(n/8) slices of 1 to 8 positions, all but the last holding exactly 8 |
| Backfill.SlicesConcat | movie.js:139-144 | the slices put back together are the selection |
| Backfill.StepKeepsPresent | movie.js:150-174 | a record's turn only fills in, whatever the ids |
| Backfill.Step | movie.js:149-175 | one record's turn keeps the store's length; `StepKeepsPresent` and `StepUnique` say it only fills in, and with unique ids fills that record and tallies its fills |
| Backfill.StepUnique | movie.js:152-174 | with unique ids, a turn merges the lookup into the record itself and tallies its fills |
| Backfill.RunAppend | movie.js:139-183 | taking the turns in batches is taking them in one run: batch boundaries do not change the result |
| Backfill.Run | movie.js:139-183 | the turns of the selected records, in order, keep the store's length; `RunAppend` and `RunNeeding` give what they compute |
| Backfill.RunKeepsPresent | movie.js:139-183 | a run of turns only fills in: every other field and every present detail of every record is kept |
| Backfill.RunNeeding | movie.js:139-183 | with unique ids, the turns of the selection fill each selected record and count its fills, in store order |
| Backfill.SkipComplete | movie.js:126-128 | a complete record is neither selected, filled nor counted |
| Backfill.FillFromAt | movie.js:152-163 | the filled store holds each record filled from its own title's lookup when it missed a detail, and unchanged otherwise |
| Backfill.Filled | movie.js:152-163 | a complete record is left alone with no fill |
| Backfill.RunBatches | movie.js:139-183 | the batch loop processes exactly the slices of the selection, pauses once between consecutive slices (one pause fewer than slices), and leaves the state of all turns taken in order |
| Backfill.RunSelection | movie.js:139-186 | the written store has the same length and only fills in; with unique ids it is each record filled, and the counters are the tally of all fills |
| Backfill.FetchAllMissing | movie.js:121-193 | no key gives no work; nothing to update exactly when no record misses a detail; otherwise the batches are the slices of the selection, their concatenation is the selection, the pauses are one fewer than the batches, and the store written back only fills in (with unique ids, exactly the per-record fill and its counts, each field counter is at most the updated-record counter, which is at most the number of selected records) |
| Backfill.TallyFromBounds | movie.js:165-174 | from consistent counters, each field counter stays at most the number of updated records, which grows by at most one per selected record |
| Import.Deduplicate | movie.js:291-299 | the records added and the number skipped together account for every candidate |
| Import.DeduplicateMembers | movie.js:291-299 | a candidate is added exactly when no stored record has its title and its year (or both have none); nothing is skipped exactly when no candidate repeats a stored record |
| Import.DeduplicateAppend | movie.js:291-299 | candidates are judged one at a time against the store only, so the result for a file is the results for its parts, in order |
| Import.RepeatedCandidatesKept | movie.js:292-295 | two identical new candidates are both added, as candidates are never compared with each other |
| Import.FillOnImport | movie.js:306-314 | without a key the record is left alone; with a key it is the import merge of its title's lookup, the placeholder poster counting as present |
| Import.FillAllOnImport | movie.js:305-318 | each new record gets its own fill, the updated count is the number of records that gained a detail, and without a key nothing changes |
| Import.NoneGained | movie.js:316 | the updated count is 0 exactly when no new record gained a detail |
| Import.ImportRecords | movie.js:291-329 | nothing new exactly when every candidate repeats a stored record; otherwise the store is the old records followed by the non-repeating candidates after their details step, the updated count is the number of them that gained a detail, the counts add up, and without a key the added records are the candidates unchanged |
| Import.ImportCsv | movie.js:285-332 | an import fails exactly when the file does not parse, and with the parse error |
| Import.NothingNewMeansAllRepeat | movie.js:327-328 | an import with nothing new had every record read repeat a stored one |
| Import.ImportedRecordAt | movie.js:291-323 | every added record is a non-repeating record read from the file, with at most its missing details filled in |
| Import.ImportedRecordsValid | movie.js:259-323 | every added record has a title and a valid date |
| Import.ParsedImportable | movie.js:259-266 | every record a parse yields has a title and a valid date |
| Import.FilledYearCanRepeat | movie.js:291-314 | a record without a year that gains one from the lookup can end up repeating a stored record, as the duplicate check runs before the fill |
| Store.WithoutIds | movie.js:573 | the filter keeps exactly the records whose id is not among the ids, and removes nothing exactly when no record has one of them |
| Store.WithoutIdsAppend | movie.js:610 | the filter keeps store order |
| Store.DeleteMovie | movie.js:569-586 | deletion reports not found exactly when no record has the id; otherwise the store shrinks and keeps exactly the records with other ids |
| Store.DeleteSelected | movie.js:591-626 | select-all on a non-empty store clears it and reports its size; otherwise the ticked ids are removed and their number reported; with nothing ticked nothing happens |
| Store.Edited | movie.js:691-703 | the edited record keeps its id and creation time, takes the trimmed title and director, keeps its date when the date field is empty, and is stamped with the edit time |
| Store.SaveEdit | movie.js:665-709 | no id, no such record, an empty title and an invalid entered date are refused in that order; a saved edit replaces exactly the first record with that id, which has a title and either its old date or a valid one |
| Store.SaveEditIdempotent | movie.js:665-709 | saving the same form twice changes nothing the second time |
| Store.EditedTwice | movie.js:691-703 | editing an edited record with the same form gives it back |
| Store.FindByIdSameIds | movie.js:669 | the index found by id depends only on the ids |
| Store.EditKeepsImportable | movie.js:665-709 | a record with a title and a valid date keeps both through a saved edit |
| Store.AddMovie | movie.js:409-455 | an empty title, a missing date and an invalid date are refused in that order; an added record is appended after the others, has a title, a valid date and a fresh id, and without a key it is the blank record |
| Store.Blank | movie.js:438-450 | the new record carries the trimmed title and review, the date as entered, a fresh id and the operation's time, and no poster, director, year, country or link, so it needs details |
| Store.AddIsImportFillOfBlank | movie.js:432-450 | with a key, the added record is the blank record merged with its title's lookup as an import merges it |
| Store.SaveApiKey | movie.js:35-55 | the trimmed input clears the key when empty, is stored when it is 32 ASCII letters and digits, and is rejected otherwise |
| Store.SaveApiKeyStable | movie.js:35-55 | saving a stored key again stores the same key |
| Text.SplitJoin | movie.js:204 | splitting on a separator undoes joining parts free of it |
| Text.JsParseIntOfNumeral | movie.js:98 | `parseInt` of a decimal numeral is the number it denotes |
| Text.JsParseInt | movie.js:98 | a number is read only from text that holds a digit; `JsParseIntOfNumeral` and `JsParseIntSign` give its value |
| Text.JsParseIntSign | movie.js:695 | a negative result needs a minus sign in the text, and a text starting with a decimal digit (no `0x` prefix) reads as a non-negative number |

## Left out

- The page itself: rendering, pagination, checkboxes, animations, modal dialogs, alerts and button states are interface code, not computation.
- Confirmation dialogs: they are taken as confirmed.
- Local storage and JSON: the store is passed in and returned as a sequence of records.
- HTTP requests, URL construction and JSON decoding of replies: the provider's replies are parameters, already decoded.
- Timers: `setTimeout` pacing is modelled only as a count of pauses.
- `Promise.all` and `Promise.allSettled`: a batch is a fold in order.
- Date parsing and `toISOString`: replaced by the date function and timestamp of `Movies.Env`.
- The rating's `parseFloat`: floating point, kept as opaque text.
- Random ids: replaced by the fresh-id function of `Movies.Env`.
- `FileReader`, `Blob`, the byte order mark written before an export, object URLs and download file names: these are input and output. The round trip is stated on the text without the byte order mark.
- `editMovie` (filling the edit form) and the Douban search button: interface code.
- Character encoding: strings are sequences of characters, not UTF-16 code units.
- CsvRoundTrip.ExportThenImport: does not round-trip the id, creation time, modification time or the rating's text. The import assigns the first three itself and re-reads the rating through `parseFloat`. The statement is also limited to records whose cells the codec can carry.
- CsvDecode.HeaderNames: the header is split on every comma, quotes or not, and data rows are split on every newline before tokenizing. Both are modelled as written.
- Tmdb.FetchDetails: a details request that fails after some fields were already extracted would keep those fields in the script. In the model a failed request yields nothing, since the fields are extracted from a reply that was read completely.
- Store.SaveEdit: a store missing from local storage (`JSON.parse(null)`) is not modelled. The store is always a sequence.
- Store.DeleteSelected: reports the number of ticked boxes, as the script does, not the number of records removed.
- Import.ImportCsv: its contract covers the parse failure. What happens to the records read is the contract of `Import.ImportRecords`.
- Backfill.FetchAllMissing: takes the placeholder address as a parameter instead of fixing it to `Movies.DefaultPosterUrl`, which holds the script's exact value. Its contract holds for every placeholder.

## Findings

| source | as written | input that shows it | evidently intended | confidence | as-written member | corrected member |
|---|---|---|---|---|---|---|
| movie.js:486-487 | the list view's comparator returns -1 when only `b` has a valid date, so the record without a valid date is sorted first | `a` with an unparsable viewing date, `b` with a valid one: the comparator returns -1 | valid dates first, as the comment on the line and the export comparator say | not executed | CsvExport.DisplayPutsInvalidFirst | CsvExport.ExportPutsValidFirst |
