# LDAR component table — import, store, render, search

A model of the page logic in `script.js` of a small browser tool for tracking
LDAR (leak detection and repair) components. The user uploads a spreadsheet.
Its first sheet's rows are normalised into a fixed 14-column record and stored
in an in-memory SQLite table `components`, replacing what was there. The table
body is rebuilt from that store. The user can also type one component into an
11-field form, which appends a row to the table. A search box filters and
highlights rows, in all columns or in one column, on every keystroke. A clear
button undoes the search.

Modules, leaf first:

- `Text` (Text.dfy): ASCII `toLowerCase`, `includes`, `trim`, the decimal
  spelling of integers, and the integer and decimal literals an SQLite
  INTEGER column recognises.
- `Records` (Records.dfy): spreadsheet cell values and JavaScript falsiness.
  Also the `|| ''` defaulting, sql.js parameter binding (32-bit numbers as
  integers, larger ones as REAL), SQLite column affinity (TEXT columns turn
  numbers into text; the INTEGER `floor` column turns integer and decimal
  literals into numbers), the record `Fields`, and the eleven display cells.
- `Store` (Store.dfy): class `RecordStore`, which holds the `components` table.
  It keeps a sequence of rows and the AUTOINCREMENT counter. It supports
  `DELETE`, `INSERT` and `SELECT ... ORDER BY id`.
- `CellMarkup` (CellMarkup.dfy): cell content as plain and highlighted runs.
  `textContent` strips the markers. `Highlight` models the global,
  case-insensitive replace that wraps each match in a `<span>`.
- `Search` (Search.dfy): `getColumnIndex`, and the search and clear handlers
  for one row. Each is a specification function (`Searched`, `Cleared`) and a
  method with the handler's cell loops (`SearchRow`, `ClearRow`).
- `TableView` (TableView.dfy): class `Table`, which holds the rendered rows. Its
  methods are the render loop, the manual-entry save handler, and the search and
  clear handlers over all rows.
- `Import` (Import.dfy): the upload handler. It deletes the old rows, inserts
  each sheet row in order, then re-renders.

## Behaviour worth noting

- The save handler adds the entry to the table only. It never writes the entry
  to the database, so the next import or render drops it. (`Table.AddEntry`
  modifies only the table.)
- The query goes unescaped into `new RegExp`. The model therefore covers only
  queries without pattern characters, where the regular expression matches
  literally.
- The import deletes the old rows before it inserts the new ones. It does not
  buffer them. Only a failure to decode the file comes before the delete.

## Model

| member | source | states |
|---|---|---|
| `Text.Lower` | script.js:318 | lower-casing keeps the length; each ASCII capital becomes its small letter and every other character is kept |
| `Text.Trim` | script.js:231-241 | the trimmed value is a slice of the input whose cut-off ends are all whitespace; it is empty exactly when the input is all whitespace, and otherwise begins and ends with a non-whitespace character, so exactly the leading and trailing whitespace is removed |
| `Text.TrimIdempotent` | script.js:231-241 | trimming an already trimmed value changes nothing |
| `Text.NatDigitsRoundTrip` | script.js:76 | reading back the decimal spelling of a natural number gives the number |
| `Text.DecimalRoundTrip` | script.js:25 | the decimal spelling of any integer is an integer literal and parses back to that integer |
| `Records.BindField` | script.js:171-184 | a parameter is the empty text exactly when its header is absent or its value is falsy; otherwise text is bound as itself, a 32-bit number as an integer, a larger one as a REAL, and a TRUE cell as the integer 1 |
| `Records.TextColumn` | script.js:18-31 | a TEXT column stores the empty text exactly when it was given the empty text |
| `Records.IntegerColumn` | script.js:25 | the floor column stores the empty text exactly when it was given the empty text; a decimal literal is stored as its value; any text it keeps is neither an integer nor a decimal literal, and a REAL it stores has a non-zero fraction without trailing zeros |
| `Records.NormaliseTextColumn` | script.js:169-185 | each of the 13 text columns is empty exactly when its header ("Client", …, "Component Type", "Sub Type", "Chemical State", "DTM", "UTM") is absent or falsy; non-empty text is kept verbatim, a non-zero 32-bit number as its decimal spelling, a larger number, bound as a REAL, as that spelling followed by `.0`, and a TRUE cell as "1" |
| `Records.NormaliseFloor` | script.js:178 | the floor is the empty text exactly when "Floor" is absent or falsy, numeric 0 included; a number, or an integer literal, is stored as that integer; a decimal literal as its value; a TRUE cell as the integer 1 |
| `Records.FloorSpellingIrrelevant` | script.js:178 | a non-zero number and its decimal spelling in "Floor" give the same record |
| `Records.NormaliseReadsOnlyHeaders` | script.js:170-185 | columns under any other header do not affect the record |
| `Records.FloorDisplay` | script.js:76 | the floor cell is blank exactly when the stored floor is the integer 0 or the empty text |
| `Records.FloorDisplayReadsBack` | script.js:76 | the shown floor, entered again under "Floor", is stored as the same floor, except that the blank shown for 0 is stored as the empty text |
| `Records.DisplayCells` | script.js:68-80 | a record renders as 11 cells, with the floor, blank when falsy, in the eighth |
| `Records.RenderedFloor` | script.js:76 | a numeric floor shows as its decimal spelling unless it is 0; text that is no numeric literal shows verbatim; any non-zero stored floor shows in a spelling that reads back as the same stored value; a REAL floor shows without trailing zeros; the text "0" shows blank and "1.50" shows as "1.5" |
| `Records.RenderedRealFloor` | script.js:76 | a REAL floor's cell is non-empty and does not end in a zero |
| `Store.RecordStore.constructor` | script.js:15-33 | the new table is empty and the id counter starts at 0 |
| `Store.RecordStore.DeleteAll` | script.js:159 | all rows go and the AUTOINCREMENT counter is kept, so ids are never reused |
| `Store.RecordStore.Insert` | script.js:17 | the row is appended under id = counter + 1, which is larger than every id before it; ids stay strictly ascending |
| `Store.RecordStore.SelectOrderedById` | script.js:62 | the rows come back in strictly ascending id order, which is their insertion order |
| `CellMarkup.PlainCell` | script.js:341 | setting a cell's HTML to a text gives a cell whose `textContent` is that text |
| `CellMarkup.PrependChar` | script.js:334-337 | one more leading character extends the text by that character, the cell has a marker exactly when it had one before, and the first run is a text run |
| `CellMarkup.PrependCharOnlyFirstRun` | script.js:334-337 | prepending replaces or adds only the first run; every run after it is the cell's own, in order |
| `CellMarkup.PrependCharCanonical` | script.js:334-338 | the character merges into a leading text run instead of sitting beside it, so a cell with no empty and no adjacent text runs keeps that shape |
| `CellMarkup.HighlightText` | script.js:334-338 | stripping the highlight markers gives back exactly the original cell text, letter case included |
| `CellMarkup.HighlightMarksTerm` | script.js:334-337 | every highlighted run lower-cases to the search term |
| `CellMarkup.HighlightPlainRunsFree` | script.js:334-337 | no text run left unhighlighted contains the term, so every occurrence overlaps a highlighted run |
| `CellMarkup.HighlightLeftmost` | script.js:334-337 | the scan takes occurrences leftmost first: no occurrence of the term in the lower-cased text starts at an offset left unhighlighted |
| `CellMarkup.HighlightMarksIffContains` | script.js:333-338 | the replace marks something exactly when the `includes` test on the lower-cased text holds |
| `CellMarkup.HighlightCanonical` | script.js:334-338 | the highlighted cell has no empty and no adjacent text runs |
| `Search.ColumnIndex` | script.js:300-315 | exactly the eleven selectors resolve, each to its own index among 0..10 |
| `Search.ColumnIndexInjective` | script.js:300-315 | two selectors that resolve to the same column are the same selector |
| `Search.TargetCell` | script.js:346-349 | a column search tests a cell exactly when `getColumnIndex` resolves the selector to an index that exists in the row, and then the cell at that index, the column the selector names |
| `Search.SearchVisibility` | script.js:325-374 | an empty term shows the row; otherwise, in "all" mode a row shows iff some cell's lower-cased text contains the term; in column mode iff the target cell's does; with no target cell never |
| `Search.SearchResetRules` | script.js:328-366 | "all" mode highlights matching cells and resets the rest to plain; column mode resets every other cell and highlights the target iff it matches; with no target no cell is touched |
| `Search.SearchVisibleIffHighlighted` | script.js:333-374 | when the selector resolves, a row is shown iff the term is empty or one of its cells is highlighted |
| `Search.SearchMarksOnlyTerm` | script.js:333-365 | when the selector resolves, every highlight left lower-cases to the term and every cell is in canonical form |
| `Search.SearchKeepsText` | script.js:329-366 | a search never changes any cell's text, only its markup |
| `Search.SearchDependsOnlyOnText` | script.js:328-366 | with a resolving selector the result depends only on the cells' texts |
| `Search.SearchForgetsHistory` | script.js:317-376 | with a resolving selector, searching after an earlier search gives the same result as searching the original row: no markup accumulates |
| `Search.EmptyTermClears` | script.js:370-374 | with a resolving selector, an empty search box shows the row with every highlight removed, as the clear button does |
| `Search.ClearUndoesSearch` | script.js:378-388 | clearing after any search gives the same row as clearing the unsearched row |
| `Search.ClearedPlain` | script.js:382-388 | after clear the row is shown and every cell keeps its text without a marker |
| `Search.ClearedIdempotent` | script.js:382-388 | clearing twice is clearing once |
| `Search.SearchRow` | script.js:323-375 | the handler's cell loops and display decision compute `Searched` for the row |
| `Search.ClearRow` | script.js:382-388 | the clear handler's cell loop computes `Cleared` for the row |
| `TableView.PlainRow` | script.js:256-268 | a new row is shown, with one unhighlighted cell per value carrying that text |
| `TableView.RenderedRows` | script.js:64-83 | one row per record, in the records' order, each showing that record's display cells |
| `TableView.RenderedRowShowsRecord` | script.js:68-80 | a rendered row is shown, has 11 plain cells, shows drawing, tag, component type and description in their columns, and a blank floor exactly for a falsy floor |
| `TableView.SelectorShowsField` | script.js:300-315 | each search selector's column shows the record field it names |
| `TableView.FormValuesByColumn` | script.js:230-242 | each of the eleven form values lands in the column whose search selector names it: the form is read in display order |
| `TableView.ValidateEntry` | script.js:230-250 | an entry is rejected iff some input is empty or only whitespace; otherwise all eleven values are trimmed and non-empty |
| `TableView.EntryCellsTrimmed` | script.js:231-241 | the cells of an accepted entry are non-empty and already trimmed |
| `TableView.Table.Render` | script.js:58-86 | the table body becomes exactly the rendered rows of the store's records in id order |
| `TableView.Table.AddEntry` | script.js:228-282 | a complete entry appends exactly one shown row of the trimmed values at the end and leaves other rows alone; an incomplete one changes nothing |
| `TableView.Table.Search` | script.js:317-376 | every row becomes `Searched` of itself for the lower-cased query; the row count is kept |
| `TableView.Table.Clear` | script.js:378-390 | every row becomes `Cleared` of itself; the row count is kept |
| `Import.NormaliseAll` | script.js:169-186 | one record per sheet row, in sheet order |
| `Import.ImportWorkbook` | script.js:120-212 | no file or an undecodable file changes nothing and reports so; a decoded sheet replaces all records with exactly its rows, normalised and in order, under ids above every earlier id, and the table shows them |
| `Import.ImportTwice` | script.js:159-186 | after two imports the store holds only the second sheet's records, under ids above those of the first |

## Left out

- DOM plumbing: `querySelector`, element identity, `style.display` as such, the form's show/hide (script.js:215-225), `clearForm` (285-297), the empty-state message (49-55), `alert` and `console` output. Rows are values in a sequence; visibility is a flag.
- The text and colour of the upload status messages (108-117, 123-130, 137-156, 193-206). `Import.Status` keeps only which outcome was reported.
- sql.js initialisation and its CDN loader (5-47). These are asynchronous foreign calls; `RecordStore` stands for the created table.
- FileReader and XLSX decoding (133-148, 211). They are asynchronous I/O and a library not shown here. `Import.Workbook` is their result: no file, an undecodable file, or the first sheet's rows.
- `Import.ImportWorkbook`: an exception thrown by an individual `INSERT` after the `DELETE` is not modelled. The source would then leave the store partly filled and report an error.
- `Records.SheetValue`: fractional numbers, dates and error cells are not modelled, nor the loss of precision of integers beyond 2^53; numbers are integers.
- `Records.IntegerColumn`: recognises a sign followed by digits, and a decimal literal without exponent. SQLite also converts literals with surrounding spaces and literals with an exponent (`"1e2"`), and turns integer literals beyond 64 bits into REAL. None of these is modelled. A decimal literal's value is kept exactly, with no rounding to a double.
- `Records.TextColumn`: a REAL of magnitude 10^15 or more may be spelled by SQLite in exponent form, depending on its version. The model always spells an integral REAL as its digits followed by `.0`.
- `Records.FloorDisplayReadsBack`: a stored integer beyond 2^53 is shown rounded on the page, because sql.js's `getAsObject` reads an INTEGER column back as a double. Its spelling then reads back as a different integer. The model shows the exact integer and does not capture this rounding.
- `Records.RenderedFloor`: a stored integer floor beyond 2^53, such as one typed as the text "9007199254740993", is shown rounded ("9007199254740992"), because sql.js reads INTEGER values as doubles. The model shows the exact integer, so the read-back clause does not hold of the page for such floors.
- `Records.RenderedFloor`: a REAL floor is shown as sign, integer part, point and fraction without trailing zeros. This is JavaScript's spelling of the double only for at most 15 significant digits and magnitudes from 10^-6 up to 10^21; outside that range JavaScript uses exponent form or rounds, which is not modelled.
- `Store.RecordStore.Insert`: the id counter is unbounded; SQLite's failure once the 64-bit AUTOINCREMENT counter is exhausted is not modelled.
- `Text.Lower`: only ASCII letters are lower-cased. JavaScript's Unicode case mapping, and the case folding of a regular expression's `i` flag outside ASCII, are not modelled.
- `TableView.Table.Search`: requires a query without regular-expression pattern characters. The source passes the raw query to `new RegExp`. A pattern character then either throws, which leaves the remaining rows unprocessed, or changes what is matched: `.` matches any character, and `^` or `$` match the empty text, so no literal text is highlighted while the `includes` test still decides which rows are shown.
- HTML interpretation: cell texts are written with `innerHTML`, so text containing markup would be parsed as HTML. The model treats every cell value as text and the highlight `<span>` (with its inline style) as an abstract marker.
- `TableView.Table.constructor`: the initial table body comes from the page's HTML, which is not part of this model. The constructor takes it as a parameter.
- The stale `tableRows` variables (94, 279) are never read. The `created_at` default (32) is wall-clock state and is never displayed.
