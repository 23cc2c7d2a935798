# STI drop-box dashboard: response table cleaning and tallies

The dashboard `app.py` loads the responses of the STI drop-box sample form
from a Google Sheets CSV export, cleans them, and charts them with Streamlit
and Plotly. This project models the part of the script that computes
something: the cleaning of the response table (`app.py:13-28`) and the two
`value_counts` tallies that feed the bar charts (`app.py:47`, `app.py:59`).
It then proves what the dashboard relies on about the cleaned table and
the tallies.

The model is written as pure functions over `seq<Row>`. These follow the
script's sequence of table updates:

1. `Schema.Rename` renames the columns by position (`data.columns = [...]`).
   The sheet's own labels are discarded. The rows are read under the fixed
   eight-column schema: Timestamp, Location, Notes, Date of Sample
   Collection, Patient Initials, Test Result, Treated, EPT. pandas raises
   `ValueError` ("Length mismatch: Expected axis has n elements, new values
   have 8 elements") when the frame does not have exactly eight columns. The
   model returns `Err(LengthMismatch(n, 8))` in that case: first the frame's
   column count, then the number of new labels.
2. `Cleaning.DropHeaderRows` keeps the rows whose Timestamp does **not** contain
   the substring `"Timestamp"`. A missing Timestamp counts as not containing it
   (`na=False`).
3. `Cleaning.TestResultCell` turns a missing Test Result into `"Unknown"`.
4. `Cleaning.TreatedCell` and `Cleaning.EptCell` do a dictionary `map` and then
   `fillna("Unknown")`. `"True"` and `"False"` become their labels. Every
   other cell, including a missing one, becomes `"Unknown"`.
5. `Tallies.ValueCounts` is `Series.value_counts()`. It gives one
   `(value, count)` pair per distinct non-missing value, with counts in
   non-increasing order. `Dashboard.TreatmentCounts` and
   `Dashboard.LocationCounts` apply it to the Treated and Location columns.

A cell is `Missing` (pandas NaN) or `Text(s)`.

`app.py:25` uses `str.contains`, a substring test rather than an equality
test, so a Timestamp such as `"Form Timestamp (GMT)"` also drops its row
(`Cleaning.DecoratedHeaderDropped`). The Date of Sample Collection is passed
through as a raw cell.

`value_counts` does not document how it orders equal counts. The model takes
the distinct values front to back and sorts them by count with an insertion
sort that does not move an entry past one with an equal count. Two examples
show this: `Tallies.DistinctFirstAppearance` on the column a, b, b, a, and
`Tallies.SortByCountStableOnTies` on a list of two entries. The contract of
`Tallies.ValueCounts` itself states only that counts do not increase down the
list.

## Model

| member | source | states |
|---|---|---|
| `Schema.ColumnNames` | app.py:13-22 | the eight labels the rename assigns, in the order given, and all of them distinct |
| `Schema.FromCells` | app.py:13-22 | the i-th cell of a raw row lands in the i-th column of the schema |
| `Schema.CellsRoundTrip` | app.py:13-22 | reading a row by position and writing it back loses nothing, both ways |
| `Schema.Rename` | app.py:13-22 | succeeds exactly when the frame has eight columns, and otherwise fails with the frame's column count and the eight new labels, in pandas' order; keeps the number of rows; every row's cells are kept in position |
| `Schema.Series` | app.py:47 | selecting a column gives one cell per row, in row order |
| `Cells.Contains` | app.py:25 | a string that starts with the pattern contains it; a string that contains the pattern is at least as long as it |
| `Cells.ContainsIff` | app.py:25 | the substring test holds iff the pattern occurs at some position, both directions |
| `Cells.NotContainsWithoutFirstChar` | app.py:25 | a string that lacks the pattern's first character does not contain the pattern |
| `Cells.FillNa` | app.py:26 | the result is never missing; a present cell is unchanged; a missing cell becomes the default |
| `Cells.MapLookup` | app.py:27-28 | the result is present exactly when the cell is present and its value is a key; then it is that key's value |
| `Cleaning.DropHeaderRows` | app.py:25 | every kept row is an input row whose Timestamp is missing or lacks "Timestamp"; every such input row is kept; nothing is added |
| `Cleaning.DropHeaderRowsAppend` | app.py:25 | the filter distributes over concatenation, so kept rows keep their relative order |
| `Cleaning.DropHeaderRowsMultiplicity` | app.py:25 | each non-header row occurs in the output exactly as often as in the input; header rows do not occur at all |
| `Cleaning.KeptFrom` | app.py:25 | the kept positions are strictly increasing, are in range, and are exactly the positions of non-header rows |
| `Cleaning.DropHeaderRowsAt` | app.py:25 | the filtered table is the input read at the kept positions |
| `Cleaning.KeptIndicesOnlyTimestamps` | app.py:25 | which rows survive depends on the Timestamp column alone |
| `Cleaning.TestResultCell` | app.py:26 | a missing Test Result becomes exactly "Unknown"; a present value is unchanged; the result is never missing |
| `Cleaning.TreatedCell` | app.py:27 | "True" becomes "Treated" and "False" becomes "Not Treated"; every other cell, missing or not, becomes "Unknown" (each an iff); the result lies in the three-label set |
| `Cleaning.EptCell` | app.py:28 | "True" becomes "EPT Provided" and "False" becomes "No EPT"; every other cell becomes "Unknown" (each an iff); the result lies in the three-label set |
| `Cleaning.FillTestResult` | app.py:26 | keeps the row count; each Test Result is rewritten by the cell rule, so a missing one becomes "Unknown" and a present one is unchanged; every other column is unchanged |
| `Cleaning.MapTreated` | app.py:27 | keeps the row count; each Treated cell is rewritten by the cell rule ("True" to "Treated", "False" to "Not Treated", anything else to "Unknown"), so it lies in the three-label set; every other column is unchanged |
| `Cleaning.MapEpt` | app.py:28 | keeps the row count; each EPT cell is rewritten by the cell rule ("True" to "EPT Provided", "False" to "No EPT", anything else to "Unknown"), so it lies in the three-label set; every other column is unchanged |
| `Cleaning.CleanRow` | app.py:26-28 | Test Result, Treated and EPT are each rewritten by their cell rule (a missing Test Result becomes "Unknown", a present one is unchanged; the flags are mapped as above and lie in their label sets); the other five columns are unchanged |
| `Cleaning.CleanRows` | app.py:25-28 | the cleaned table has one row per kept position; each row is the cleaned input row at that position; no cleaned row is a header row; none has a missing Test Result, Treated or EPT; the flags lie in their label sets |
| `Cleaning.Clean` | app.py:13-28 | the whole script fails exactly when the frame does not have eight columns, with the rename's error; on success the result is the cleaning of the renamed rows, has no more rows than the frame, and every row is clean |
| `Cleaning.CleanRowColumnwise` | app.py:26-28 | each cleaned column depends only on the same column of its input row |
| `Cleaning.CleanRowKeepsOtherColumns` | app.py:26-28 | Timestamp, Location, Notes, Date of Sample Collection and Patient Initials pass through unchanged |
| `Cleaning.CleanRowsAppend` | app.py:25-28 | cleaning distributes over concatenation: it is row by row and keeps the order |
| `Cleaning.RepeatedHeaderDropped` | app.py:25 | a header line repeated in the data, built from the rename's own labels, leaves no row behind |
| `Cleaning.DecoratedHeaderDropped` | app.py:25 | a Timestamp that only contains "Timestamp" also drops its row (substring test, not equality) |
| `Cleaning.ResponseCleaned` | app.py:25-28 | a single row that is not a header row comes out as exactly its cleaned row |
| `Cleaning.TypicalRowCleaned` | app.py:25-28 | a response with a blank Test Result and flags "True"/"False" comes out as "Unknown", "Treated", "No EPT" |
| `Cleaning.HeaderThenResponseCleaned` | app.py:25-28 | a header row followed by a response leaves only the cleaned response |
| `Cleaning.UnmappedFlagsCleaned` | app.py:27-28 | a missing Treated cell and an EPT cell that is neither "True" nor "False" both become "Unknown" |
| `Cleaning.FrameWithRepeatedHeaderCleaned` | app.py:13-28 | end to end on an eight-column export with a pasted header line: one cleaned response |
| `Tallies.ValueCounts` | app.py:47 | counts do not increase down the list; each value is listed once; each count equals that value's number of occurrences and is positive; a value is listed iff some cell holds it |
| `Tallies.TallyTotal` | app.py:47 | before sorting, the counts sum to the number of non-missing cells |
| `Tallies.ValueCountsTotal` | app.py:47 | the counts sum to the number of non-missing cells, so to at most the column length |
| `Tallies.SortByCountPermutes` | app.py:47 | sorting by count permutes the pairs and keeps their total |
| `Tallies.DistinctFirstAppearance` | app.py:47 | on the column a, b, b, a the distinct values come out as a, b: the order of first appearance |
| `Tallies.SortByCountStableOnTies` | app.py:47 | on a list of two entries with equal counts, sorting keeps them in their order |
| `Dashboard.TreatmentCounts` | app.py:47 | the Treated tally is sorted by count, lists each value once with its number of occurrences, and sums to the present Treated cells |
| `Dashboard.LocationCounts` | app.py:59 | the Location tally is sorted by count, lists each value once with its number of occurrences, and lists every present location |
| `Dashboard.TreatmentCountsOfClean` | app.py:47 | on clean rows the Treated tally has at most three entries, all of them Treated labels, and accounts for every row |
| `Dashboard.TreatmentCountsOfCleaned` | app.py:47 | on the output of the cleaning the Treated counts sum to the number of cleaned rows |
| `Dashboard.LocationCountsTotal` | app.py:59 | the Location tally sums to the rows whose Location is present, so to at most the row count |

## Left out

- Fetching the CSV from Google Sheets (`app.py:9-10`) is network I/O. The model starts from the frame `read_csv` returns (`Schema.RawFrame`).
- `read_csv`'s parsing is left out: its dtype inference and its default NA strings (empty fields, "NA", "N/A", "null", "None", "nan", "#N/A" and similar), which it reads as NaN, so a Test Result of "N/A" reaches the model as `Missing`. Every raw cell is a string or missing. The model does not capture what happens when pandas turns the Treated or EPT column into booleans, so the string-keyed maps miss.
- `Schema.Rename` requires a rectangular frame. Every pandas DataFrame has one cell per column in each row.
- When the Timestamp column holds no strings at all (every cell NaN), pandas gives it a float dtype and `.str.contains` raises `AttributeError`. This comes from dtype inference, so it is not modelled. The model treats such rows as kept.
- The model treats `str.contains` as a literal substring test. That matches `app.py:25` only because the pattern `"Timestamp"` has no regular-expression metacharacters.
- The Streamlit page (title, headers, `st.plotly_chart`) and every Plotly figure are rendering only (`app.py:6`, `app.py:33-67`). The pie chart's own counting of Test Result inside Plotly (`app.py:37-42`) is not modelled.
- The `rename_axis(...).reset_index(name="Count")` reshaping is modelled only as the field names of `Tallies.ValueCount`.
- Tallies.ValueCounts: its contract states only the non-increasing order of counts, not the order of ties, because pandas does not promise how ties are placed. The model's tie order is shown only by two examples, `Tallies.DistinctFirstAppearance` and `Tallies.SortByCountStableOnTies`, not proved in general; tie order is not part of what the dashboard relies on.
- Date parsing, sidebar filtering by location or result, the time series and the summary metrics are not in `app.py`, so they are not modelled.
