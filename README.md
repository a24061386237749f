# Crime dashboard RJ: a model of the data pipeline

`src/dashboard.py` is a Streamlit page that loads a table of monthly crime
figures for the state of Rio de Janeiro and lets a user pick a range of years
and a set of crime metrics. It then shows the matching rows as a table and as
a line chart, or a "no data" warning. This project models that pipeline in
Dafny over an abstract table. A table is an ordered list of column names plus
rows. Each row maps every column name to a cell, and a cell is either missing
(pandas' NaN) or a value.

The modules follow the steps of the file:

- `Text` (text.dfy): the string functions of the cleaning.
  - Python's `str.strip()`, using its exact set of whitespace code points.
  - Quote removal.
  - Comma-to-period replacement.
  - Deletion of every character that is not a digit, `.` or `-`.
- `Decimals` (decimals.dfy): exact decimal numbers, used in place of floats.
  A value is `mantissa * 10^-scale`. Canonical values have no trailing zero
  in the mantissa while there are fractional digits. Two canonical values
  are equal exactly when they denote the same number, and they are totally
  ordered.
- `Numbers` (numbers.dfy): `pd.to_numeric(..., errors="coerce")` as a total
  parser that returns a number or missing. It comes with an independent
  description of the accepted numerals and a rendering of numbers that the
  parser inverts.
- `Tables` (tables.dfy): the table, its cells, and the names `ano`, `mes` and
  `mes_ano`.
- `Loader` (loader.dfy): `carregar_dados`.
  - The cell cleaning of line 29.
  - The coercion of `ano` and `mes`.
  - The `mes_ano` column, kept opaque: it records the year and month it is
    built from.
  - The metric loop of lines 44-54, as a method whose loop invariant tracks the
    columns processed so far.
- `Dashboard` (dashboard.dfy): the derivations at the top level of the page.
  - The sorted, distinct year list and the slider defaults.
  - The metric columns and the default selection.
  - The inclusive year filter and the projection shown as a table.
  - The chart-or-warning guard.

The user's widget choices (the year range and the selected metrics) are
parameters.

A European-style `"1.234,56"` does not read as 1234.56. Line 50 maps the
comma to a period first, which gives `"1.234.56"`, and `to_numeric` makes
that missing (`Loader.CoerceMetricThousandsSeparator`).

In these places, where the source raises an exception, the model has an
explicit error result:

- `df["ano"]` or `df["mes"]` on a file without that column.
- `anos[0]` or `crime_cols[0]` on an empty list.
- Selecting a column the table does not have.

The date parse of line 40 can also raise. The model leaves it out (see
"## Left out"), so a load the source would abandon there succeeds in the
model.

## Model

| member | source | states |
|---|---|---|
| Text.IsSpace | src/dashboard.py:29 | the characters `str.strip()` removes, Python's `str.isspace` code points; its contracts are those of Text.LeadingSpaces and Text.TrailingStart, which cut exactly these characters |
| Text.LeadingSpaces | src/dashboard.py:29 | the count of leading characters `strip()` removes: all of them are whitespace, and the next character, if any, is not |
| Text.TrailingStart | src/dashboard.py:29 | where the trailing whitespace `strip()` removes begins: everything from there is whitespace, and the character before, if any, is not |
| Text.StripLeading | src/dashboard.py:29 | the front half of `strip()`; its contract is Text.StripLeadingCuts |
| Text.StripLeadingCuts | src/dashboard.py:29 | the result is a suffix of the input; everything cut is whitespace; the result does not start with whitespace |
| Text.StripTrailing | src/dashboard.py:29 | the back half of `strip()`; its contract is Text.StripTrailingCuts |
| Text.StripTrailingCuts | src/dashboard.py:29 | the result is a prefix of the input; everything cut is whitespace; the result does not end with whitespace |
| Text.Strip | src/dashboard.py:29 | `str.strip()`; its contract is Text.StripIsTrimmedSlice |
| Text.StripIsTrimmedSlice | src/dashboard.py:29 | `strip()` is the slice left after cutting all the whitespace at both ends; what remains neither starts nor ends with whitespace |
| Text.RemoveQuotes | src/dashboard.py:29 | no `"` is left |
| Text.RemoveQuotesKeepsOthers | src/dashboard.py:29 | the result is a subsequence of the input and keeps every other character with its multiplicity |
| Text.CleanText | src/dashboard.py:29 | the lambda of line 29 on a text: strip, then remove quotes; its contracts are Text.StripIsTrimmedSlice, Text.RemoveQuotes and Text.RemoveQuotesKeepsOthers |
| Text.CommaToDot | src/dashboard.py:50 | same length; every comma becomes a period in place; every other character is unchanged in place |
| Text.KeepNumeric | src/dashboard.py:51 | only digits, `.` and `-` remain |
| Text.KeepNumericSubsequence | src/dashboard.py:51 | the kept characters are a subsequence of the input; each digit, `.` and `-` is kept as often as it occurs, every other character removed |
| Text.KeepNumericKeepsNumeric | src/dashboard.py:51 | a text of digits, `.` and `-` only is unchanged |
| Text.KeepNumericDropsPrefix | src/dashboard.py:51 | a prefix with no digit, `.` or `-` is dropped entirely |
| Text.NormaliseMetric | src/dashboard.py:48-52 | lines 50-51 on a metric text; its contracts are Text.NormaliseMetricAlphabet, Text.NormaliseMetricShrinks, Text.NormaliseMetricFixesNumeric and Text.NormaliseMetricIdempotent |
| Text.NormaliseMetricAlphabet | src/dashboard.py:48-52 | the normalised metric text has only digits, `.` and `-`, and no comma |
| Text.NormaliseMetricShrinks | src/dashboard.py:48-52 | the normalised text is a subsequence of the input with commas mapped to periods, so it is never longer than the input |
| Text.NormaliseMetricFixesNumeric | src/dashboard.py:48-52 | a text of digits, `.` and `-` only is left as it is |
| Text.NormaliseMetricIdempotent | src/dashboard.py:48-52 | normalising twice is normalising once |
| Decimals.Normalise | src/dashboard.py:54 | the canonical form has the same value and no larger scale |
| Decimals.SameValueIsEqual | src/dashboard.py:73 | two canonical numbers with the same value are equal, so `unique()` on numbers removes equal values |
| Decimals.LessTransitive | src/dashboard.py:73 | the order used by `sorted` is transitive |
| Decimals.LessLessEqTransitive | src/dashboard.py:73 | a non-strict step followed by a strict step gives a strict step |
| Decimals.Trichotomy | src/dashboard.py:73 | two numbers are equal or one is strictly below the other |
| Numbers.Scan | src/dashboard.py:33-34 | the numeral reader inside `to_numeric`; its contract is Numbers.ScanAccepts |
| Numbers.ScanAccepts | src/dashboard.py:33-34 | the scanner accepts exactly the texts of digits and periods with at most one period and some digit |
| Numbers.ParseNumber | src/dashboard.py:33-34 | `pd.to_numeric(..., errors="coerce")` on one text; its contracts are Numbers.ParseAcceptsNumerals (which texts give a number), Numbers.ParseFractionValue and Numbers.ParseIntegerValue (which number each numeral gives), and Numbers.ParseRender (the number each plain notation gives) |
| Numbers.ParseAcceptsNumerals | src/dashboard.py:33-34 | coercion yields a number exactly for the numerals (optional sign, digits, at most one `.`, at least one digit); anything else is missing, never an error |
| Numbers.ParseFractionValue | src/dashboard.py:33-34 | a sign, integer digits, a period and fractional digits (either run possibly empty, not both) read as the value of all the digits over ten to the number of fractional digits, negated for "-" |
| Numbers.ParseIntegerValue | src/dashboard.py:33-34 | a sign and digits read as that integer, negated for "-", leading zeros and "+" included |
| Numbers.ParsePaddedMonth | src/dashboard.py:34 | a zero-padded month "01" reads as 1 |
| Numbers.ParseRender | src/dashboard.py:54 | reading the plain notation of any number gives that number back |
| Loader.CleanCell | src/dashboard.py:29 | the lambda of line 29: a text cell becomes its cleaned text, any other cell stays as it is; its contract is Loader.CleanCellsRemovesQuotes |
| Loader.CleanCells | src/dashboard.py:29 | `applymap` keeps the columns, the row count and each row's keys, and applies the cell cleaning to every cell |
| Loader.CleanCellsRemovesQuotes | src/dashboard.py:29 | after cleaning, no text cell contains `"`; missing cells are unchanged; the table stays well formed and all text |
| Loader.ToNumericCell | src/dashboard.py:33-34 | a cell becomes a number exactly when it is text that parses, and then it is that number; otherwise it is missing |
| Loader.ToNumericColumn | src/dashboard.py:33-34 | only the named column changes, each of its cells coerced; shape and other cells unchanged |
| Loader.AddPeriod | src/dashboard.py:40 | `mes_ano` is set in every row (appended as the last column if new) from the row's year and month; nothing else changes |
| Loader.Prepare | src/dashboard.py:29-40 | lines 29-40 in order: the table stays well formed, gets the loaded columns, keeps its rows, and leaves the metric cells as text |
| Loader.PrepareMetricCells | src/dashboard.py:29-40 | before the metric loop, each metric cell is the cleaned cell of the file |
| Loader.PrepareDateCells | src/dashboard.py:29-40 | before the metric loop, `ano` and `mes` hold the parsed cleaned cells and `mes_ano` records them |
| Loader.AsText | src/dashboard.py:49 | `astype(str)` of a text or missing cell: a missing cell prints as "nan"; its contract is Loader.MissingMetricStaysMissing |
| Loader.CoerceMetricText | src/dashboard.py:48-54 | lines 50-54 on one text; its contracts are Loader.CoerceMetricAccepts and Loader.CoerceMetricRender |
| Loader.CoerceMetricCell | src/dashboard.py:48-54 | lines 49-54 on one cell; its contract is Loader.MissingMetricStaysMissing, and on text cells those of Loader.CoerceMetricText |
| Loader.CoerceMetricAccepts | src/dashboard.py:48-54 | a metric text becomes a number exactly when its normalised form has a `-` only in front, at most one `.` and some digit |
| Loader.CoerceMetricRender | src/dashboard.py:48-54 | the plain notation of any number survives the metric normalisation and coerces back to that number |
| Loader.MissingMetricStaysMissing | src/dashboard.py:49-54 | a missing metric cell prints as "nan", which normalises to the empty text, which is missing |
| Loader.NormaliseSymbolsExample | src/dashboard.py:48-52 | "R$ 45" normalises to "45" |
| Loader.CoerceMetricDropsSymbols | src/dashboard.py:48-54 | "R$ 45" becomes 45 |
| Loader.NormaliseCommaExample | src/dashboard.py:48-52 | "12,5" normalises to "12.5" |
| Loader.CoerceMetricDecimalComma | src/dashboard.py:48-54 | "12,5" becomes 12.5 |
| Loader.NormaliseThousandsExample | src/dashboard.py:48-52 | "1.234,56" normalises to "1.234.56" |
| Loader.CoerceMetricThousandsSeparator | src/dashboard.py:48-54 | "1.234,56" becomes missing |
| Loader.CoerceMetricRejects | src/dashboard.py:48-54 | "--" and "" become missing |
| Loader.CoerceMetricColumn | src/dashboard.py:48-54 | one loop iteration: only column `c` changes, each of its cells normalised and coerced |
| Loader.CoerceMetrics | src/dashboard.py:44-54 | the loop coerces exactly the columns other than `ano`, `mes` and `mes_ano`; all other cells, the column names and order, the row count and each row's keys are unchanged |
| Loader.Load | src/dashboard.py:18-57 | fails exactly when `ano` or `mes` is missing (the date parse of line 40, which can also raise, is left out); otherwise keeps every row, appends `mes_ano` if it is new, gives metric cells as cleaned and coerced and `ano`/`mes` as cleaned and parsed, and fills `mes_ano` from the row's year and month |
| Dashboard.NonMissingYears | src/dashboard.py:73 | `dropna()`; its contract is Dashboard.NonMissingYearsMembers |
| Dashboard.NonMissingYearsMembers | src/dashboard.py:73 | `dropna()` holds exactly the years some row has |
| Dashboard.Unique | src/dashboard.py:73 | `unique()`; its contract is Dashboard.UniqueDistinct |
| Dashboard.UniqueDistinct | src/dashboard.py:73 | `unique()` has no duplicates and holds exactly the values of its input |
| Dashboard.InsertPermutes | src/dashboard.py:73 | insertion adds exactly one occurrence of the value |
| Dashboard.InsertAscending | src/dashboard.py:73 | inserting a new value into a strictly ascending list keeps it strictly ascending |
| Dashboard.SortAscending | src/dashboard.py:73 | `sorted`; its contracts are Dashboard.SortPermutes and Dashboard.SortStrictlyAscending |
| Dashboard.SortPermutes | src/dashboard.py:73 | `sorted` returns a permutation of its input |
| Dashboard.SortStrictlyAscending | src/dashboard.py:73 | sorting distinct values gives a strictly ascending list |
| Dashboard.Years | src/dashboard.py:73 | `anos`; its contracts are Dashboard.YearsAscending and Dashboard.YearsMembers |
| Dashboard.YearsAscending | src/dashboard.py:73 | `anos` is strictly ascending and has no duplicates |
| Dashboard.YearsMembers | src/dashboard.py:73 | a year is in `anos` exactly when some row has it |
| Dashboard.SliderDefaults | src/dashboard.py:78 | defaults exist exactly when there are options, and both are options |
| Dashboard.SliderDefaultsAreExtremes | src/dashboard.py:73-78 | the defaults are years of some rows and bound every row's year from below and above; there are none exactly when no row has a year |
| Dashboard.MetricColumns | src/dashboard.py:84 | a column is a metric exactly when it is a table column other than `ano`, `mes` and `mes_ano` |
| Dashboard.MetricColumnsInOrder | src/dashboard.py:84 | the metric columns keep the table's column order |
| Dashboard.DefaultSelection | src/dashboard.py:90 | a default exists exactly when there are options; it is a single option |
| Dashboard.MetricColumnsHead | src/dashboard.py:84 | the first metric column is the first table column that is a metric |
| Dashboard.DefaultSelectionIsFirstMetric | src/dashboard.py:84-90 | the default selection is the first metric column of the table; there is none exactly when the table has no metric column |
| Dashboard.InRange | src/dashboard.py:95 | the row mask: the row has a year, at least `ano_inicio` and at most `ano_fim`; its contract is Dashboard.FilterRowsExact |
| Dashboard.FilterRows | src/dashboard.py:95 | every kept row has a year within the inclusive range |
| Dashboard.FilterYears | src/dashboard.py:95 | the filter keeps the columns, and every kept row has a year within the range |
| Dashboard.FilterRowsExact | src/dashboard.py:95 | the kept rows are in their original order; each in-range row is kept as often as it occurs, and every other row, including those without a year, is dropped |
| Dashboard.FilterYearsComplete | src/dashboard.py:95 | every row whose year is in the range is kept |
| Dashboard.FilterYearsWellFormed | src/dashboard.py:95 | the filtered table is a well-formed table with the same columns |
| Dashboard.FilterAtDefaults | src/dashboard.py:78-95 | at the slider defaults, the filter keeps exactly the rows with a year |
| Dashboard.FilterEmptyRange | src/dashboard.py:95 | a range whose start is above its end keeps no row |
| Dashboard.ShownColumns | src/dashboard.py:101 | `["mes_ano", "ano"] + crimes_selecionados`; its contracts are Dashboard.ProjectWellFormed and Dashboard.SelectionFromOptions |
| Dashboard.Project | src/dashboard.py:101 | the projection fails exactly when a requested column is absent; otherwise it has the requested columns, the same rows, and the same cell values |
| Dashboard.ProjectWellFormed | src/dashboard.py:101 | for distinct selected metrics, the shown table is well formed |
| Dashboard.ColumnHasData | src/dashboard.py:106 | `df_filtrado[c].notna().any()`; its contract is Dashboard.ColumnHasDataExists |
| Dashboard.ColumnHasDataExists | src/dashboard.py:106 | `notna().any()` holds exactly when some row has a value in the column |
| Dashboard.AnySelectedHasData | src/dashboard.py:106 | the lazy `any(...)`; its contract is Dashboard.AnySelectedExact |
| Dashboard.IsEmpty | src/dashboard.py:106 | `DataFrame.empty`: no rows or no columns; its contract is Dashboard.DecideChart |
| Dashboard.Decide | src/dashboard.py:106-121 | the chart-or-warning branch; its contracts are Dashboard.DecideChart and Dashboard.SelectionFromOptions |
| Dashboard.AnySelectedExact | src/dashboard.py:106 | with every selected column present, `any(...)` tells whether some selected column has data |
| Dashboard.DecideChart | src/dashboard.py:106-121 | with the selected columns present, there is no error, and the chart is drawn exactly when the filtered table is not empty and some selected column has a value in some row; an empty selection warns |
| Dashboard.SelectionFromOptions | src/dashboard.py:84-106 | for a selection taken from the metric options, neither the table view nor the guard fails; the shown table has as many rows as the filtered table, whatever the selection |

## Left out

- Reading the CSV from its fixed path (lines 21-24) is file I/O. The model starts from the table the reader returns. Every cell is text or missing, column names are distinct, and each row has every column.
- The `@st.cache_data` memoisation is process state kept by the library. It does not change any value.
- All Streamlit and Plotly calls are user interface, so they are not modelled: page setup, title, sidebar, sliders, multiselect, `st.dataframe`, `px.line`, tick format, `st.plotly_chart` and `st.warning`. The widget results are parameters. The last branch returns a Chart or Warning tag.
- Loader.Load: the date parse of line 40 is left out, so the model does not capture the loads it makes fail. With `errors="raise"`, a month such as "13" raises, and so does a year column that turned to float because a year is missing. The model returns a table in those cases.
- Loader.AddPeriod: `pd.to_datetime` on the `"YYYY-MM-01"` text is not modelled. That text depends on pandas' float formatting, for example "2019.0" once a year is missing. How it parses and the error it may raise depend on pandas' date parser. The `mes_ano` cell only records the year and month it is built from.
- Floating point is not modelled, because exact decimals stand in for the floats `to_numeric` returns. Rounding and the magnitude limits of floats are therefore not modelled.
- Numbers.ParseNumber accepts less than `pd.to_numeric` does for `ano` and `mes`. It rejects exponents ("1e3"), "inf" spellings and surrounding whitespace, which pandas reads as numbers. For metric cells this makes no difference: after normalisation those texts hold only digits, `.` and `-`.
- Text.KeepNumeric keeps ASCII digits only (Text.IsDigit is `0`-`9`). Python's `\d` on line 51 also keeps other Unicode decimal digits, which the model drops: the model reads "4٥" as 4, because it drops the "٥" that line 51 keeps.
- Dashboard.Project: duplicate selected columns are not modelled. A table here has one cell per column name, and pandas would repeat the column. The multiselect widget does not produce duplicates.
- Dashboard.SortAscending is an insertion sort standing in for Python's `sorted`. The two agree on distinct values, which is all `anos` holds.
- When `sel` holds a column the table lacks, line 101 raises before line 106 runs. Dashboard.Decide models line 106 alone.
