# Titanic dashboard pipeline, modelled in Dafny

The dashboard in `main.py` reads an uploaded passenger table and runs it
through three stages. This project models all three and proves what each
promises.

1. `clean_data` (main.py:24-37) is a fixed sequence of rewrites:
   - it normalises the column headers (strip, then capitalise);
   - it fills the missing ages with the median age and the missing ports of
     embarkation with the most frequent port;
   - it drops `Cabin`, `Ticket` and `Name`;
   - it capitalises `Sex`;
   - it recodes `Survived` 0/1 as `No`/`Yes`.
2. The sidebar filter (main.py:55-65) offers every distinct `Sex` and `Pclass`
   value, all of them preselected. It keeps the rows whose values are among
   the selected ones.
3. The metrics (main.py:72-78) are the number of filtered passengers, and how
   many of them survived and did not. Both counts read "N/A" when the cleaned
   table has no `Survived` column.

A table is a datatype stored column by column (`Tables.Table`), as pandas
stores it. A cell is `Missing` (NaN), a number or a text.
- Every column operation the pipeline uses is a function with its contract:
  lookup, assignment, dropping and boolean row selection.
- The statistics (median, mode) and the text operations (`str.strip`,
  `str.capitalize`) are functions, with lemmas about what they compute.
- The failures of `clean_data` are results, not exceptions:
  - a median over an `Age` column holding text, where pandas raises
    `TypeError`;
  - `mode()[0]` of an `Embarked` column with no value, where pandas raises
    `KeyError: 0` (the mode is an empty series, and `[0]` looks up label 0).

`clean_data` is stated twice:
- as the function `Cleaning.Clean`, on table values;
- as the method `Cleaning.CleanData`, which updates a working copy
  (`Cleaning.Frame`) step by step, as the source does, and is proved equal to
  `Clean`.

The filter block is a method (`Filtering.FilterBlock`) that narrows a copy
twice, as the source does. It is proved to select exactly the rows that pass
both tests.

One might expect `Sex` to keep its other letters as they are and
`clean_data` to be idempotent. The code does neither, and the model follows
the code:
- `str.capitalize()` lower-cases every character after the first, so `Sex`
  values come out as `Male`/`Female` whatever their case (main.py:34).
- `clean_data` is not idempotent. On a cleaned table, the `Survived` labels
  are neither 0 nor 1, so a second pass makes them all missing
  (`Cleaning.CleanTwiceErasesSurvived`, `Scenario.TwoPassengersCleanedTwice`).

## Model

| member | source | states |
|---|---|---|
| Text.Strip | main.py:26 | `str.strip()` returns the slice left after removing whitespace at both ends. What it cuts is whitespace, and what it keeps neither starts nor ends with whitespace. |
| Text.Capitalize | main.py:26 | `str.capitalize()` keeps the length, upper-cases the first character and lower-cases every other one. |
| Text.CapitalizeIdempotent | main.py:34 | Capitalising twice is capitalising once. |
| Text.CapitalizeMatch | main.py:26 | Two strings capitalise alike exactly when they agree in lower case. |
| Text.NormalizeHeaderIdempotent | main.py:26 | Normalising an already-normalised header changes nothing. |
| Text.NormalizeHeaderMatch | main.py:26 | Two headers get the same name exactly when their stripped forms agree ignoring case. |
| Text.NormalizeHeader | main.py:26 | The header normaliser is `str.strip()` followed by `str.capitalize()`. Its properties are the idempotence and matching lemmas below. |
| Text.PclassHeaderExample | main.py:26 | `" PCLASS "` and `"pclass"` are both read as `Pclass`. |
| Tables.Series | main.py:28-36 | `df[name]` on a column that exists gives the values of the first column of that name, one per row of a rectangular table. |
| Tables.SetSeries | main.py:33-36 | `df[name] = values` on an existing column replaces that column's values. It keeps the row count, the column names and order, and every other column, and the table stays rectangular. |
| Tables.Drop | main.py:32 | `drop(labels, axis=1)` removes exactly the named columns. The others keep their order and values, and no row is lost. |
| Tables.SelectRows | main.py:63 | A boolean row selection keeps the column names. It has as many rows as the mask has `True` values, and every column is the mask's selection of the original column. |
| Tables.SelectRowsSubsequence | main.py:63-65 | A row selection is an order-preserving subsequence: row `j` of the result is the original row at the `j`-th selected position. |
| Tables.SelectTwice | main.py:62-65 | Selecting with one mask and then with another one (restricted to the kept rows) is selecting with both at once. |
| Stats.Sort | main.py:28 | The values are sorted as a permutation of the input. |
| Stats.Median | main.py:28 | The median of the known values is the middle sorted value, or the mean of the two middle ones when their number is even. Its properties are `MedianSplits` and `MedianBetween`. |
| Stats.MedianSplits | main.py:28 | At least half the values are at most the median and at least half are at least it. |
| Stats.MedianBetween | main.py:28 | The median lies between the smallest and the largest value, and is one of the values when there is an odd number of them. |
| Stats.Mode | main.py:30 | `mode()[0]` is absent exactly when every cell is missing. Otherwise it is a known value of the column that no known value outnumbers. |
| Stats.ModeFirst | main.py:30 | Among the known values with the mode's count, the mode appears first. |
| Cleaning.SeriesMedian | main.py:28 | `Series.median()` fails with the type error exactly when the column holds text. It is NaN exactly when, with no text, every cell is missing. Otherwise it is the median of the column's numbers. |
| Cleaning.CapitalizeCell | main.py:34 | `str.capitalize()` on one cell: a text is capitalised, any other cell becomes missing. Its property is `SexRule`. |
| Cleaning.SurvivedLabel | main.py:36 | `map({0: 'No', 1: 'Yes'})` on one cell: 0 gives `No`, 1 gives `Yes`, anything else is missing. Its property is `SurvivedRule`. |
| Cleaning.Rename | main.py:26 | Assigning `df.columns` renames the columns position by position. The row count, the number of columns and every column's values are kept, and the table stays rectangular. |
| Cleaning.NormalizeHeaders | main.py:26 | The header step renames each column to its normalised header. The row count, the column order and the values are kept; `CleanedHeadersStay` shows it is the identity on a cleaned table. |
| Cleaning.ImputeAge | main.py:27-28 | The age step leaves a table without `Age` alone. Otherwise it fails when the median fails, and else fills the missing ages with it. Its properties are `ImputeAgeFails` and `AgeRule`. |
| Cleaning.ImputeEmbarked | main.py:29-30 | The port step leaves a table without `Embarked` alone. Otherwise it fails when the column has no mode, and else fills the missing ports with the mode. Its property is `EmbarkedRule`. |
| Cleaning.DropUnused | main.py:31-32 | The drop step removes whichever of `Cabin`, `Ticket` and `Name` are columns. Its properties are `Present` and `CleanDropsColumns`. |
| Cleaning.CapitalizeSex | main.py:33-34 | When `Sex` is a column, its cells are capitalised; otherwise the table is unchanged. |
| Cleaning.LabelSurvived | main.py:35-36 | When `Survived` is a column, its cells are relabelled; otherwise the table is unchanged. |
| Cleaning.Clean | main.py:24-37 | `clean_data` runs the header step, the age step, the port step, the drop, the `Sex` step and the `Survived` step in that order, and the first failure stops it. Its properties are `CleanFails`, `CleanByColumn` and the lemmas after it. |
| Cleaning.FillMissing | main.py:28 | `fillna(v)` turns every missing cell into `v` and leaves the others. |
| Cleaning.Present | main.py:31 | The drop list holds exactly those of `Cabin`, `Ticket` and `Name` that are columns. |
| Cleaning.ImputeAgeFails | main.py:27-28 | The age step fails with the type error exactly when `Age` holds text. When it succeeds it leaves `Embarked` alone. |
| Cleaning.CleanFails | main.py:27-30 | `clean_data` fails with the age error exactly when `Age` holds text. It fails with the port error exactly when `Age` is fine and `Embarked` has no value. Otherwise it succeeds. |
| Cleaning.CleanByColumn | main.py:24-37 | A successful run keeps every row. The columns are the normalised input headers in input order, minus `Cabin`, `Ticket` and `Name`. Each column is its rule's image of the same input column. |
| Cleaning.CleanDropsColumns | main.py:31-32 | No output column is `Cabin`, `Ticket` or `Name`. An input header survives exactly when its normalised form is none of them, whatever its case or padding. |
| Cleaning.CleanHeadersNormalized | main.py:26 | Every output header is the normalised form of an input header, and is its own normal form. |
| Cleaning.AgeRule | main.py:27-28 | If the column has some number: no age is missing afterwards, each missing age is the median of the original numbers, and the other ages are unchanged. If it has none (a NaN median), the column is left as it was. |
| Cleaning.EmbarkedRule | main.py:29-30 | If some port is known: no port is missing afterwards, and each missing one becomes the mode. The mode is a most frequent known port, the first to appear among those tied. Known ports are unchanged. |
| Cleaning.SexRule | main.py:33-34 | Every `Sex` cell ends capitalised: first letter not lower case, the rest not upper case, non-text cells missing. Capitalising the column again changes nothing. |
| Cleaning.SurvivedRule | main.py:35-36 | `No` exactly for 0, `Yes` exactly for 1, missing for anything else. No row is removed. |
| Cleaning.CleanedHeadersStay | main.py:26 | The headers of a cleaned table are already normal. |
| Cleaning.CleanAgainOk | main.py:24-37 | After a successful `clean_data`, `Age` holds no text and `Embarked` has no missing port, so a second `clean_data` on the cleaned table never fails. |
| Cleaning.CleanTwiceErasesSurvived | main.py:35-36 | Cleaning a cleaned table succeeds and makes every `Survived` cell missing. It changes the table whenever a label was present. |
| Cleaning.Frame.constructor | main.py:25 | `df.copy()` holds exactly the input table. |
| Cleaning.Frame.SetColumns | main.py:26 | Assigning `df.columns` renames the columns position by position and changes nothing else. |
| Cleaning.Frame.FillNa | main.py:28-30 | `fillna(v, inplace=True)` on a column rewrites that column of the frame alone. |
| Cleaning.Frame.DropColumns | main.py:32 | `drop(..., inplace=True)` succeeds exactly when every label is a column, and then removes those columns. A `KeyError` leaves the frame unchanged. |
| Cleaning.Frame.Assign | main.py:33-36 | `df[name] = values` replaces an existing column in place or appends a new one. |
| Cleaning.CleanData | main.py:24-37 | The step-by-step, in-place run of `clean_data` returns what `Clean` specifies, including its two failures. |
| Filtering.Unique | main.py:55 | `unique().tolist()` holds each value of the column exactly once. |
| Filtering.Options | main.py:55-59 | The options offered, all of them preselected, are the distinct values of the column, or none when the column is absent. |
| Filtering.Member | main.py:63-65 | `isin(selected)` marks each cell that is among the selected values. |
| Filtering.Keep | main.py:61-65 | A row is kept when its `Sex` is selected (if the table has `Sex`) and its `Pclass` is selected (if it has `Pclass`). Its properties are `FilterBlock` and `FilterKeepsExactly`. |
| Filtering.FilterBlock | main.py:61-65 | Narrowing the copy by `Sex` and then by `Pclass` selects exactly the rows `Keep` accepts, and keeps the column names. |
| Filtering.FilterKeepsExactly | main.py:55-65 | The filtered rows form an order-preserving subsequence. Every kept row has its `Sex` and `Pclass` among the selected values when those columns exist, and every such row is kept. |
| Filtering.DefaultSelectionKeepsAll | main.py:55-59 | With the preselected options, no row is lost. |
| Filtering.EmptySelectionKeepsNone | main.py:62-65 | Deselecting everything for a column that exists leaves no row. |
| Metrics.Summarize | main.py:72-78 | The total is the filtered row count. When the cleaned table has `Survived`, the two metrics count the filtered `Yes` and `No` cells; otherwise both are "N/A". Its property is `SummaryCounts`. |
| Metrics.OccTwo | main.py:74-75 | The cells equal to `Yes` and those equal to `No` together number at most all cells, and exactly all when every cell is one of the two. |
| Metrics.SummaryCounts | main.py:72-78 | The total is the filtered row count, and both counts are "N/A" exactly when `Survived` is absent. Survivors plus non-survivors are at most the total, and equal it exactly when every filtered `Survived` cell is `Yes` or `No`. |
| Metrics.CleanedSurvivedLabelled | main.py:35-36 | After cleaning, every `Survived` cell is `Yes`, `No` or missing. |
| Metrics.LabelledCounts | main.py:72-75 | On a labelled `Survived` column, the two counts add up to the total exactly when no cell is missing. |
| Metrics.PipelineCounts | main.py:45-78 | Over clean, then filter, then count: survivors plus non-survivors equal the total exactly when no filtered `Survived` cell is missing. |
| Scenario.SexSurvivedClean | main.py:24-37 | On a table of `Sex` and `Survived` alone, `clean_data` capitalises one column and relabels the other. |
| Scenario.CleanedTwo | main.py:24-37 | `male`/0 and `female`/1 are cleaned to `Male`/`No` and `Female`/`Yes`. |
| Scenario.TwoPassengers | main.py:24-78 | The raw passengers `male`/0 and `female`/1 clean successfully, and with every option selected the dashboard shows 2 passengers, 1 survivor and 1 non-survivor. |
| Scenario.FemaleOnlyTwo | main.py:55-65 | Selecting only `Female` leaves a single row. |
| Scenario.TwoPassengersCleanedTwice | main.py:35-36 | Cleaning the cleaned two-passenger table again leaves both `Survived` cells missing. |

## Left out

- Reading the CSV (`pd.read_csv`, main.py:46), including dtype inference, is not modelled. The model starts from a parsed table of missing, numeric and text cells.
- The Streamlit page is not modelled. This covers the upload widget, the `multiselect` widgets (their selections are parameters of the filter), `st.write` and the metric widgets; their displayed values are the `Summary` datatype.
- The seaborn charts, the OpenAI/OpenRouter chat client and the session-state transcript are not modelled. They are I/O and calls into external services.
- Floating point is not modelled. Ages are exact rationals, so the mean of the two middle ages is exact, and NaN is the single value `Missing`.
- Cleaning.CapitalizeCell, Cleaning.CleanFails: `Series.str` on a non-empty column that holds no text at all raises `AttributeError` in pandas (e.g. a `Sex` column read as all-NaN floats), so `clean_data` fails there. The model maps every non-text cell to missing instead, and `CleanFails` reports success. A zero-row column (a header-only file) does not raise.
- Duplicate headers after normalisation are not modelled (e.g. `age` and `Age `). The model reads and writes the first column of that name; pandas would return several columns.
- Stats.Mode, Stats.ModeFirst, Cleaning.EmbarkedRule: ties go to the value that appears first in the column. pandas' `mode()` returns the tied values sorted, so `mode()[0]` is the smallest of them. The model does not capture that order.
- Text.Capitalize, Text.Strip: only ASCII letters change case, and whitespace is ASCII whitespace (space, `\t` to `\r`, 0x1C to 0x1F). Python's methods are Unicode-aware, and `capitalize` title-cases the first character.
- Cleaning.Frame.FillNa: the chained `df['Age'].fillna(..., inplace=True)` is modelled as writing back into the frame, as intended. Under pandas' copy-on-write mode it updates a temporary copy only.
- Boolean cells are not represented. `map({0: 'No', 1: 'Yes'})` does not match `True`/`False` against the integer keys, so they would become missing, as any other cell does under `SurvivedLabel`. Numbers are compared by value, so 0 and 0.0 are one value.
- Exceptions are results: `CleanData` returns `Err` where `clean_data` would raise, and the page would stop.
