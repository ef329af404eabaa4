# Illiteracy dashboard — data layer model

This project models the data layer of a Dash dashboard over a spreadsheet of
illiteracy figures per country and year (2000–2025). The model is in Dafny and
is proved against its specification. The dashboard has one table (`df`) with
these columns:

- country (`País`) and year (`Año`);
- illiterate and literate counts (`Analfabetas`, `Alfabetas`);
- totals for men and women (`Total_Hombres`, `Total_Mujeres`);
- two age brackets (`5-9_Total`, `10-15_Total`).

The model covers:

- **Load-time coercion** (`Coercion`). The `df` frame is a class with one
  sequence per column. `DataFrame.Coerce` replaces each numeric column with
  its `to_numeric(..., errors='coerce')` copy. An absent age column becomes
  all zeros.
- **Global analysis** (`Aggregates`). `groupby('Año').mean()` is modelled the
  way a group-by runs: one pass that keeps a running (sum, count) per year.
  It is proved equal to a reference definition that filters each year's
  values and averages the present ones.
- **Per-country series, top five of a year, literacy share** (`Queries`).
  These are the three chart callbacks. Each returns the data its chart plots.
  `Prevent` stands for Dash's `PreventUpdate`.
- **Selectors** (`Selectors`). This is the country dropdown
  (`unique()` in first-appearance order) and the year slider with its
  five-year marks.
- **The data table** (`Table`). `TableCallback` is the pure callback
  `actualizar_tabla`. `DataTable` is the widget. Its page size, cursor and
  page action are written back by the callback and read again on the next
  event, so it forms a small state machine.
- **Tab dispatch** (`Dashboard`). This is what each of the six tabs is built
  from.

`Records` holds the shared row type, Python truthiness of widget values, and
`Select`. `Select` models boolean-mask indexing `df[mask]`.

The model follows the code on these points:

- The country series is in table order. The code filters but does not sort by
  year.
- The top five are non-increasing, not strictly decreasing. Equal counts stay
  in table order, as `nlargest(keep='first')` does.
- `nlargest` ranks only the rows with a count, then appends the year's rows
  whose count is missing, in table order, and cuts at five. A year with fewer
  than five counts therefore charts rows without a bar
  (`Queries.MissingCountCharted`). This is the behaviour of pandas 1.4 and
  later.
- The table callback never resets the cursor. It echoes cursor and size in
  paged mode. After 'todo' these are 0 and the row count, so going back to
  paged mode shows one page holding every row (`ShowAllThenPaged`,
  `ShowAllThenBack`).
- Coercion overwrites the columns of `df` in place, once, at load.
- A year of 0 or a missing year is falsy and yields no update. An empty
  country string yields no update too.
- Tab 2 creates its table holding every row with page size 10. The callback
  does not run on creation (`prevent_initial_call`), so every row shows until
  the first table event (`Table.DataTable.constructor`).

## Model

| member | source | states |
|---|---|---|
| Coercion.ToNumeric | app.py:11-16 | a number stays as it is; text becomes its parsed number, or NaN if it does not parse; an empty cell becomes NaN; the result is never text |
| Coercion.CoerceColumn | app.py:11-14 | same length as the input; only numbers and NaN; cell i is the coercion of input cell i |
| Coercion.Zeros | app.py:15-16 | an absent age column becomes one 0 per row |
| Coercion.CoerceColumnIdempotent | app.py:11-14 | coercing a coerced column changes nothing |
| Coercion.NumericUnchanged | app.py:11-16 | a column of numbers and NaN comes back unchanged, whether it was coerced or is the zeros of an absent age column |
| Coercion.UnparsableIsMissing | app.py:11-14 | a text cell the parser rejects reads as missing, not as an error |
| Coercion.Value | app.py:11-16 | a coerced cell reads as present exactly when it holds a number, and then as that number |
| Coercion.DataFrame.Coerce | app.py:11-16 | every numeric column is replaced by its coerced copy; an absent age column is filled with zeros; countries, years and the row count do not change; on a frame already coerced nothing changes, so loading twice gives the same table |
| Coercion.DataFrame.Rows | app.py:11-16 | one record per row, in row order, with each cell read as number or missing |
| Aggregates.Mean | app.py:104 | pandas' skip-NaN mean: missing exactly when no value is present, and otherwise the mean times the number of present values is their sum |
| Aggregates.MeanMissingIff | app.py:104 | a year's mean for a field is missing exactly when all its values are missing (never 0 for lack of data) |
| Aggregates.MeanSkipsMissing | app.py:104 | a missing value counts in neither the sum nor the count: removing it leaves the mean unchanged |
| Aggregates.MeanBounds | app.py:104 | the mean lies between any lower and upper bound of the present values |
| Aggregates.TalliesCorrect | app.py:104 | the one-pass group-by has a group for exactly the years that occur, holding the sum and count of that year's present values |
| Aggregates.InsertYear | app.py:104 | inserting a year into an ascending list of distinct years keeps it ascending and adds exactly that year |
| Aggregates.SortedYears | app.py:104 | the group keys: strictly ascending, and exactly the years that occur |
| Aggregates.Summarise | app.py:104 | a year's summary line holds, per field, the mean of that year's present values |
| Aggregates.YearlyMeans | app.py:104 | one line per distinct year, strictly ascending by year, each field the mean over that year's non-missing values only |
| Records.Select | app.py:203 | boolean-mask indexing `df[mask]` never yields more rows than the frame |
| Records.SelectAppend | app.py:203 | filtering a concatenation is the concatenation of the filtered parts, so row order is kept |
| Records.SelectMembers | app.py:203 | a boolean mask keeps exactly the rows that satisfy it |
| Records.SelectEmptyIff | app.py:235 | the filtered frame is empty exactly when no row satisfies the mask |
| Records.SelectFirst | app.py:238-239 | `.values[0]` of a filtered frame is the first row that satisfies the mask |
| Queries.CountryRows | app.py:203 | `df[df['País'] == pais]` holds exactly the rows of that country |
| Queries.CountrySeries | app.py:200-203 | no update for an empty or missing country; otherwise the country's filtered rows (`CountryRows`, in table order), exactly that country's rows, and empty exactly when the country does not occur |
| Queries.CountryRowsAppend | app.py:203 | the series keeps table order |
| Queries.Eligible | app.py:217-218 | the rows nlargest ranks are exactly the rows of that year with a present count |
| Queries.EligibleAppend | app.py:217-218 | the counted rows keep table order, which the tie order of `keep='first'` rests on |
| Queries.Missing | app.py:217-218 | the rows nlargest appends unranked are exactly the rows of that year with a missing count |
| Queries.MissingAppend | app.py:217-218 | the rows with a missing count keep table order, the order nlargest appends them in |
| Queries.YearRowsSplit | app.py:217 | every row of the year is either ranked or appended: the two counts add up to the year's rows |
| Queries.InsertDesc | app.py:218 | inserting into a non-increasing list keeps it non-increasing |
| Queries.InsertDescPerm | app.py:218 | insertion adds exactly the one row |
| Queries.SortDesc | app.py:218 | the ranking order is non-increasing by count and keeps the length |
| Queries.SortDescPerm | app.py:218 | the ranking only reorders: the same rows, each as often |
| Queries.SortDescStable | app.py:218 | rows with equal counts keep their table order |
| Queries.NLargest | app.py:218 | nlargest(n) over counted rows: min(n, rows) of them, non-increasing by count |
| Queries.TopN | app.py:217-218 | `df_anio.nlargest(n, 'Analfabetas')`: at most n rows, min(n, rows of the year) in all |
| Queries.Top5 | app.py:214-218 | no update for a falsy year; otherwise min(5, rows of that year) rows of that year; rows with a count come first, largest first, and are nlargest(5) of the counted rows; rows with a missing count follow in table order, only when fewer than five counts are present |
| Queries.TopNParts | app.py:217-218 | nlargest(n) is the ranked rows followed by the missing-count rows, min(n, rows of the year) in all |
| Queries.TopNShape | app.py:217-218 | nlargest(n) holds only rows of the year; a counted row never follows a missing one, counts do not increase, and a missing row comes after every ranked row |
| Queries.NLargestRest | app.py:218 | the rows ranking leaves out are the tail of the sorted rows, as a multiset |
| Queries.NLargestBasics | app.py:218 | nlargest(n) returns min(n, eligible) rows, non-increasing, drawn from the eligible rows |
| Queries.NLargestOmittedAreSmaller | app.py:218 | every eligible row left out counts no more than the last row returned |
| Queries.NLargestKeepsFirst | app.py:218 | among equal counts, the rows returned are the first such rows in table order |
| Queries.Classify | app.py:241-248 | Invalid exactly when a count is missing or negative; Empty only for two zero counts; otherwise two percentages in [0, 100] summing to 100, in the ratio of the counts |
| Queries.Matches | app.py:234 | the filter on country and year keeps exactly the rows with both |
| Queries.LiteracyShare | app.py:231-248 | no update for a falsy country or year; NoData exactly when no row has that country and year |
| Queries.LiteracyShareFirstRow | app.py:234-239 | the first row with that country and year alone decides the result |
| Queries.InvalidBeforeEmpty | app.py:241-246 | the validity test runs before the zero-sum test: counts -5 and 5 are Invalid, not Empty |
| Queries.SharesIff | app.py:241-248 | shares are drawn exactly when both counts are present, not negative and not summing to 0 |
| Queries.MissingCountCharted | app.py:214-218 | a 2020 row with count 10 and a 2020 row with a missing count give a top five of both, counted row first |
| Queries.SingleRowScenario | app.py:214-248 | one row X/2020 with 10 illiterate and 90 literate gives shares 10 and 90, and a top five of that row alone |
| Selectors.IndexOf | app.py:118 | the position found holds the value |
| Selectors.IndexOfIsFirst | app.py:118 | no earlier position holds the value |
| Selectors.UniqueFrom | app.py:118 | the values not yet seen, each once |
| Selectors.ShiftOrder | app.py:118 | first positions in the tail shift by one in the whole column, after the head |
| Selectors.UniqueFromOrder | app.py:118 | unique values come in order of first appearance |
| Selectors.Unique | app.py:118 | every country exactly once, in order of first appearance |
| Selectors.Countries | app.py:118 | the country column, row by row |
| Selectors.CountryOptions | app.py:118-123 | the dropdown offers exactly the countries that occur, without repeats, in order of first appearance in the table |
| Selectors.MinYear | app.py:131 | the smallest year, and it occurs |
| Selectors.MaxYear | app.py:132 | the largest year, and it occurs |
| Selectors.Marks | app.py:135 | `range(min, max + 1, 5)`: every mark lies in [min, max] |
| Selectors.MarksMembers | app.py:135 | a year is marked exactly when it lies in [min, max] and is a multiple of 5 years from min |
| Selectors.MarksShape | app.py:135 | the marks are min, min+5, ..., with (max-min)/5+1 of them |
| Selectors.YearSlider | app.py:129-136 | no slider for an empty table; otherwise min and max are the extreme years, step 1, initial value min, and the marks are min, min+5, ... up to max |
| Table.Clamp | app.py:189-191 | a slice bound is resolved into [0, n]; in-range bounds stay, bounds past the end become n |
| Table.PySlice | app.py:191 | a slice is never longer than the table |
| Table.Page | app.py:189-191 | `df.iloc[p*s : p*s+s]`: never longer than the table, and at most s rows for a cursor and size that are not negative |
| Table.TableCallback | app.py:183-192 | no update without a mode; 'todo' gives every row, size = row count, cursor 0, no paging, whatever came in; other modes show page cursor at the given size, echo cursor and size, with custom paging |
| Table.SliceWindow | app.py:189-191 | the slice from m of s rows is rows[m..m+s] cut at the end, at most s rows, empty exactly when s is 0 or m is past the end |
| Table.PagedWindow | app.py:188-192 | page p of size s is rows[p*s .. p*s+s] cut at the end, at most s rows, empty (not an error) once p*s reaches the row count |
| Table.PagesCover | app.py:188-192 | pages 0..k-1 laid end to end are exactly the first k*s rows: paging loses and repeats nothing |
| Table.ShowAllThenPaged | app.py:186-192 | after 'todo', paged mode keeps size = row count and cursor 0 (not 10) and shows every row |
| Table.DataTable.constructor | app.py:89-97 | the table of tab 2 starts with every row, cursor 0, size 10, custom paging, mode 'paginado' |
| Table.DataTable.Refresh | app.py:173-192 | the callback's four outputs are written back into the table; nothing changes on PreventUpdate |
| Table.DataTable.SelectMode | app.py:178-192 | 'todo' shows every row unpaged; another mode shows the current page at the current size |
| Table.DataTable.GoToPage | app.py:179-192 | moving the pager to page p shows page p at the current size; in 'todo' mode every row unpaged; with no mode only the cursor moves |
| Table.ShowAllThenBack | app.py:186-192 | a session 'todo' then 'paginado' ends on one page with every row and size = row count |
| Dashboard.RenderTab | app.py:43-170 | unknown tab: nothing; tab1: the intro; tab2: mode 'paginado' and the initial table; tab3: the yearly means, ascending, one per year; tab4: country info, tab6: age distribution, each with the countries that occur and a slider spanning every year, or an error over an empty table; tab5: every row |
| Dashboard.SameSelectorsOnTabs4And6 | app.py:117-166 | tabs 4 and 6 offer the same countries and the same slider |

## Left out

- Reading the spreadsheet (`pd.read_excel`) is file I/O. The columns are the constructor's arguments.
- The string-to-number parse inside `pd.to_numeric` is a foreign library. It is the `Parser` parameter. Booleans and dates in cells are not modelled.
- The year column is taken as integers. It is never coerced in the source, and a non-integer year is not modelled.
- Floating-point rounding of means and percentages is not modelled: both are exact reals.
- The page layout, the intro text and image, CSS, and `app.run`/`server` are UI and transport.
- Figure building, titles and colours of every chart are left out, and so are the tab-5 scatter, histogram and box plot, which rely on Plotly's own binning and statistics. Tab 5 is modelled as the rows it plots.
- The DataTable's native filter and sort run in the browser and are not modelled.
- The slider marks are modelled as years, not as the strings `str(a)` the source builds.
- Dash's event scheduling is not modelled. That includes `prevent_initial_call` on the tab callback (the intro tab shows only after a tab change), concurrency between sessions, and the client-side widget.
- Table.DataTable.GoToPage: requires custom paging, because with `page_action='none'` the pager is not shown and no page event can occur.
- A blank country cell is not modelled: countries are strings, so the NaN option `unique()` would list for such a cell does not occur.
