# Occupancy dashboard: filter-and-aggregate model

This project models the logic of `Dashboard.py`, a Streamlit page over a
spreadsheet of desk-occupancy sensor readings. Each reading has:

- a floor, a timestamp, a sensor id, a building, a desk name and a department;
- the number of people counted;
- the desk's capacity.

The page does three things, and the model covers all three:

- **Sidebar option lists.** Each list holds the sorted distinct values of a column. The floor list starts with a `"Both Floors"` sentinel.
- **Filter chain.** Five conditional masks narrow the readings in turn: floor, an inclusive date range, sensors, buildings and desks. An empty multiselect means "no restriction".
- **Aggregates over the filtered rows.** These are:
  - the distinct sensor and building counts and the total people count;
  - the mean and peak count per floor;
  - the total per department and the total per day;
  - the five desks with the highest occupancy rate, `sum(peopleCount) / sum(capacity) * 100`;
  - the mean count per (weekday, hour) slot, shown as a heatmap.

Modules, in dependency order:

- `Order` (`order.dfy`): the string and integer orders, and sorting distinct values.
  - `StringLess` is Python's code-point lexicographic `str` order. Lemmas prove it is a strict total order.
  - `SortedDistinct` is `sorted(set(xs))`.
  - `AscendingUnique` proves that a list which is strictly ascending and has a given set of elements is the only such list.
- `Readings` (`readings.dfy`): the record of one reading, and the operations on a sequence of readings.
  - `Where` models the boolean-mask selection `df[mask]`.
  - `SumPeople`, `SumCapacity`, `Peak` and `Mean` are the sum, max and mean over a sequence.
  - A date is a day number counted from 1970-01-01. `Weekday` and `DayName` give its weekday, with Monday as 0.
- `Groups` (`groups.dfy`): pandas `groupby` and `nunique`.
  - Groups come out in ascending key order, one group per distinct key.
  - A proof shows that per-group sums add up to the total.
- `Filters` (`filters.dfy`): the sidebar.
  - The option lists and the default selection.
  - The filter chain, written as a method that rebinds its local sequence step by step, proved equal to one filter by the conjunction of all criteria.
  - The properties of that filter.
- `Views` (`views.dfy`): the summary tiles, the per-floor series, the department and daily totals, and the heatmap.
- `Ranking` (`ranking.dfy`): the per-desk occupancy rates and `nlargest(5)`.
  - The desk groups come out in name order, and `nlargest` keeps the first of equal values at the cut.
  - The model ranks by a stable sort by descending rate, so equal rates stay in name order.
  - With more than five desks this is the source's order. With five or fewer the source does not fix the order of equal rates (see Left out).
- `Dashboard` (`dashboard.dfy`): properties of a whole run, plus worked examples.

Means and rates are exact `real` ratios.

## Model

| member | source | states |
|---|---|---|
| Order.SortedDistinct | Dashboard.py:29-41 | `sorted(col.unique())` is strictly ascending and holds exactly the values of the column, at most one per row |
| Order.AscendingUnique | Dashboard.py:29-41 | two strictly ascending lists with the same elements are equal, so each sorted distinct list is determined by its values |
| Order.StringLessIsStrictTotal | Dashboard.py:29-41 | the text order the option lists and groups are sorted by is irreflexive, transitive and total |
| Filters.Options | Dashboard.py:35-41 | a sidebar option list is strictly ascending and holds exactly the values of its column |
| Filters.FloorOptions | Dashboard.py:29 | the floor list is `"Both Floors"` followed by the distinct floors, strictly ascending |
| Filters.SensorOptions | Dashboard.py:35 | the sensor list is strictly ascending and holds exactly the sensor ids present |
| Filters.BuildingOptions | Dashboard.py:38 | the building list is strictly ascending and holds exactly the buildings present |
| Filters.DeskOptions | Dashboard.py:41 | the desk list is strictly ascending and holds exactly the desk names present |
| Filters.FirstDay | Dashboard.py:33 | the default start date is a lower bound on every reading's date, reached by some reading |
| Filters.LastDay | Dashboard.py:33 | the default end date is an upper bound on every reading's date, reached by some reading |
| Filters.DefaultSelection | Dashboard.py:30-42 | the initial state is "Both Floors", no sensors, buildings or desks picked, and a date range from exactly the earliest to exactly the latest reading's day, covering every reading |
| Filters.ApplyFilters | Dashboard.py:53-70 | applying the five conditional masks in turn gives exactly the readings that meet every criterion, in their original order |
| Filters.FilteredIsSubsequence | Dashboard.py:53-70 | the filtered rows are a subsequence of the data: nothing added or altered, order kept |
| Filters.FilteredKeepsExactlyTheMatches | Dashboard.py:55-70 | a reading is kept if and only if it meets every active criterion, and then every copy of it is kept |
| Filters.BothFloorsIsUnrestricted | Dashboard.py:55-56 | with "Both Floors", narrowing the result to one floor equals selecting that floor |
| Filters.NoSensorsIsEverySensor | Dashboard.py:63-64 | an empty sensor selection keeps the same rows as selecting every sensor offered |
| Filters.NoBuildingsIsEveryBuilding | Dashboard.py:66-67 | an empty building selection keeps the same rows as selecting every building offered |
| Filters.NoDesksIsEveryDesk | Dashboard.py:69-70 | an empty desk selection keeps the same rows as selecting every desk offered |
| Filters.DateRangeIsInclusive | Dashboard.py:58-61 | a reading on the first or the last day of the range passes the date mask |
| Filters.InvertedRangeSelectsNothing | Dashboard.py:58-61 | a start date after the end date leaves no rows |
| Filters.DefaultSelectionKeepsAll | Dashboard.py:30-70 | with the widgets in their initial state, every reading is kept |
| Readings.Where | Dashboard.py:56-70 | a mask selection keeps a row exactly when the mask holds of it and adds none |
| Readings.WhereIsSubsequence | Dashboard.py:56-70 | a mask selection is an order-preserving subsequence |
| Readings.WhereThen | Dashboard.py:56-70 | masking twice in a row is masking once by the conjunction |
| Readings.SumPeople | Dashboard.py:78 | the sum is at least every row's count, and 0 exactly when every row counts 0 |
| Readings.SumPeopleAppend | Dashboard.py:78 | the sum over two concatenated parts is the sum of the parts' sums |
| Readings.Peak | Dashboard.py:94 | `max()` is an upper bound on the counts that some row reaches |
| Readings.MeanAtMostPeak | Dashboard.py:93-94 | a group's mean lies between 0 and its peak |
| Groups.Unique | Dashboard.py:74-82 | `nunique()` counts each column value once, at most one per row, and 0 only for no rows |
| Groups.Group | Dashboard.py:93-165 | a group holds exactly the rows with its key, and is non-empty exactly when the key occurs |
| Groups.Totals | Dashboard.py:110 | a group-by sum has one entry per key, each the sum over that key's group |
| Groups.TotalsAddUp | Dashboard.py:110 | group sums over keys that cover every row, each once, add up to the total count |
| Groups.KeyTotalsAddUp | Dashboard.py:110 | the sums per `groupby` key add up to the total count |
| Views.UniqueSensorCount | Dashboard.py:74 | the tile shows the number of distinct sensor ids among the rows: at most the number of rows, and 0 exactly when there are none |
| Views.TotalPeopleCount | Dashboard.py:78 | the total covers every row's count and is 0 exactly when no row counts anyone |
| Views.UniqueBuildingCount | Dashboard.py:82 | the tile shows the number of distinct buildings among the rows: at most the number of rows, and 0 exactly when there are none |
| Views.Floors | Dashboard.py:93-94 | the floor index is strictly ascending and holds exactly the floors present |
| Views.AverageByFloor | Dashboard.py:93 | one entry per floor present, ascending, each the mean of that floor's non-empty group |
| Views.PeakByFloor | Dashboard.py:94 | one entry per floor present, ascending, each a count no reading on that floor exceeds and one reaches |
| Views.AverageAtMostPeak | Dashboard.py:93-94 | the two floor series share their index, and each floor's average lies between 0 and its peak |
| Views.DepartmentTotals | Dashboard.py:110 | one sum per department present, ascending, each over that department's rows; together they equal the total people count |
| Views.DailyTotals | Dashboard.py:145 | one sum per day present, in calendar order, each over that day's rows; together they equal the total people count |
| Views.Cell | Dashboard.py:165 | a heatmap cell is blank exactly when no reading falls in its slot, and otherwise holds the slot's mean |
| Views.HeatmapOf | Dashboard.py:165 | rows are the weekday names present in alphabetical order, columns the hours present, ascending; each cell is that slot's `Cell` |
| Views.CellAtMostSlotPeak | Dashboard.py:165 | a filled cell lies between 0 and the largest count in its slot |
| Ranking.RateOrderIsCrossMultiplication | Dashboard.py:119 | comparing two occupancy rates is comparing the integer cross products people × capacity |
| Ranking.DeskRates | Dashboard.py:119 | one rate per desk present, in name order, each the group's people sum over capacity sum times 100 |
| Ranking.InsertByRate | Dashboard.py:119 | inserting into a descending list keeps it descending and adds exactly the one entry |
| Ranking.RankByRate | Dashboard.py:119 | the ranking is a permutation of the rates, in descending order |
| Ranking.RankKeepsTiesByName | Dashboard.py:119 | ranking a name-ordered list keeps equal rates in name order, the keep-first rule `nlargest` applies |
| Ranking.TopDesks | Dashboard.py:119 | `nlargest(5)` keeps min(5, number of desks) distinct desks from the desk rates, descending with ties in name order; no desk left out rates higher than a desk kept, and one left out that ties with a kept desk comes after it by name (keep-first at the cut); with no rows it is empty, the corrected behaviour (see Findings) |
| Ranking.LeftOutTieRanksAfter | Dashboard.py:119 | cutting a list whose ties are in name order keeps the first of equal rates: a tied entry left out comes later by name |
| Ranking.LeftOutRankLower | Dashboard.py:119 | in a descending list, every entry after the first k rates at most every entry among them |
| Dashboard.NoRowsEmptyViews | Dashboard.py:74-165 | with no rows every tile reads 0 and every chart is empty, the desk ranking taken as corrected (the source raises there, see Findings) |
| Dashboard.InvertedRangeEmptiesViews | Dashboard.py:58-165 | an inverted date range leaves the total at 0 and the daily trend empty, and the corrected desk ranking empty (the source raises there, see Findings) |
| Dashboard.TopDesksAsWritten | Dashboard.py:119 | the ranking as written fails exactly when no row passes the filter, and otherwise is the ranking |
| Dashboard.InvertedRangeRaisesAtRanking | Dashboard.py:119 | an inverted date range reaches the failure of the ranking as written |
| Dashboard.FloorAverageExample | Dashboard.py:93-94 | two readings on one floor counting 3 and 7 give an average of 5 and a peak of 7 |
| Dashboard.DeskRateExample | Dashboard.py:119 | a desk counting 50 people over 100 seats has an occupancy rate of 50 |

## Left out

- Loading the spreadsheet (line 13): the data is a parameter, a sequence of readings.
- The page configuration, logo and stylesheet (lines 17-24) are presentation only.
- Streamlit widgets and layout (lines 27-50, 86-90, 96-179): the widget values are a `Selection` value, and nothing is displayed.
- Plotly figures: the model stops at the data each chart is given.
- The box plot at line 160: Plotly computes its quartiles and outliers internally, and the model does not reproduce them.
- Floating-point arithmetic: means and rates are exact `real` ratios. Rounding, and the ties it can create or break, are not modelled.
- Timestamp parsing and formatting: a date is an integer day number and an hour is 0 to 23.
  - The daily trend keys on the day number. Its `"%Y-%m-%d %a"` labels sort lexically in calendar order, so the two orders agree.
  - The heatmap rows are the English `day_name()` strings, which `groupby` sorts alphabetically.
- Ranking.TopDesks: when every desk fits in the top five, `nlargest` sorts the rates with an unstable sort, so the source does not fix the order among equal rates; the model puts them in name order, one of the orders the source allows. With more than five desks the source's order is the model's.
- Zero capacity: the model requires every row's capacity to be positive. The source only divides by a desk's capacity sum. There a zero sum does not raise: the division gives infinity, or NaN when the desk also counts 0 people, with a warning. The model also excludes a zero-capacity row whose desk's total capacity is positive, which the source handles.
- The `rename` at line 120 only relabels a column, and the commented-out block at lines 132-142 is not code.
- The date widget can return a single date while the user is picking a range. `date_range[1]` then raises. The model always has both ends.
- Missing values: `groupby` and `nunique` drop missing keys, and the model has none.
- Column types: every text column is compared as text.
  - If the spreadsheet stored floors or sensor ids as numbers, pandas would sort them numerically.
  - A floor actually named `"Both Floors"` would act as the sentinel, as it does in the source.

## Findings

| source | as written | input that shows it | evidently intended | confidence | as-written member | corrected member |
|---|---|---|---|---|---|---|
| Dashboard.py:119 | `f_df.groupby("name").apply(...)` over a filtered frame with no rows gives an empty DataFrame, not a Series. Its `nlargest(5)` then raises for want of the `columns` argument, so lines 120-179 (ranking chart, daily trend, box plot, heatmap) never run | any selection matching no reading, e.g. a start date after the end date, which the date widget accepts | an empty ranking, so the remaining views render empty | medium, not executed; read from pandas' documented behaviour | Dashboard.TopDesksAsWritten, Dashboard.InvertedRangeRaisesAtRanking | Ranking.TopDesks, Dashboard.NoRowsEmptyViews |
