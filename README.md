# Vaccination pivot and population pie: a Dafny model of the two table transforms

The repository holds two plotting scripts. This project models what each one
does to its table between loading the data and drawing the chart, and proves
what those steps guarantee.

- `CountryWiseDailyVaccination.py`. It keeps the rows of four countries. It
  averages `total_vaccinations_per_hundred` for each (date, location) pair and
  pivots the result into one row per date and one column per country. It then
  forward-fills each column and builds the colour and opacity maps that make
  the "United States" line stand out. Module `Vaccination`
  (`vaccination.dfy`) models all of this with pure functions over sequences.
  A row is an `Observation(date, location, perHundred: Option<real>)`. The
  pivot is a `Pivot(dates, columns)`: an ascending sequence of dates and a map
  from each country to its column of cells.
- `plagiarism1.py`. It keeps the gapminder rows of Asia in 2007. It overwrites
  the country of every row with fewer than two million people with
  "Other countries", in place. The pie chart then sums `pop` per label.
  Module `Population` (`population.dfy`) models the two queries as functions.
  The masked `.loc` assignment is a method that rewrites an `array<Row>` in
  place, with a frame condition. The pie's per-label sum is a sequence of
  `Slice(name, total)`.
- Module `Tables` (`tables.dfy`) holds what both scripts share: the nullable
  cell `Option` and the boolean-mask row selection `Filter`.

The semantics are those of pandas and plotly that the scripts rely on:
- `pivot_table` with its defaults (`aggfunc='mean'`, `dropna=True`) skips null
  values inside a group.
- A (date, location) group with no value gives a null cell. Its date leaves
  the index when no other group of that date has a value.
- A location gets a column only when it has at least one value.
- `fillna(method='ffill')` fills down each column separately and never fills
  backwards.
- `px.pie` adds up the values that share a name.

Two consequences of these pandas defaults may be unexpected:
- A listed country without any value gets no column at all, not an all-null
  one, so `pivot[country]` at line 46 fails. `Vaccination.PlottableIff` states
  exactly when every listed country has a column.
- A null reading on a day no other country reports drops that day from the
  index. Germany's readings `1.0, null, 3.0` on three days give dates `[1, 3]`
  and the column `[1.0, 3.0]`, not `[1.0, 1.0, 3.0]`
  (`Vaccination.GapDayDropped`). The fill carries `1.0` into day 2 only when
  another country keeps that day in the index (`Vaccination.GapDayFilled`).

## Model

| member | source | states |
|---|---|---|
| `Tables.Filter` | CountryWiseDailyVaccination.py:16 | The selection keeps only rows the mask accepts, keeps every row it accepts, and is never longer than its input |
| `Tables.FilterAppend` | CountryWiseDailyVaccination.py:16 | Selection keeps row order: selecting from `a + b` gives the selection from `a` followed by the selection from `b` |
| `Tables.FilterFilter` | plagiarism1.py:2 | Two chained selections equal the single selection by the conjunction of both masks |
| `Vaccination.KeepCountries` | CountryWiseDailyVaccination.py:15-16 | Every kept row's location is in the country list, and a row is kept exactly when its location is in the list |
| `Vaccination.KeepCountriesAppend` | CountryWiseDailyVaccination.py:15-16 | The country filter keeps the input order of the rows it keeps |
| `Vaccination.GroupValuesReported` | CountryWiseDailyVaccination.py:19-25 | A (date, location) group has non-null values exactly when some input row with that date and location has a value |
| `Vaccination.GroupsAgree` | CountryWiseDailyVaccination.py:19-25 | The one-pass group accumulation has an entry exactly for the groups with a non-null value, and the entry is the sum and count of those values |
| `Vaccination.InsertDate` | CountryWiseDailyVaccination.py:19-25 | Adding a date to a strictly ascending index keeps it strictly ascending and adds exactly that date |
| `Vaccination.DateIndex` | CountryWiseDailyVaccination.py:19-25 | The pivot index is strictly ascending, so each date appears once, and holds exactly the dates on which some row has a value |
| `Vaccination.PivotTable` | CountryWiseDailyVaccination.py:19-25 | The pivot's dates are strictly ascending, so each appears once, and are exactly the dates on which some row has a value. Every column has one cell per date |
| `Vaccination.PivotColumns` | CountryWiseDailyVaccination.py:19-25 | The pivot has a column exactly for each location with at least one non-null value |
| `Vaccination.PivotCells` | CountryWiseDailyVaccination.py:19-25 | Cell (d, c) is the mean of the non-null values of the rows dated d at location c, or null when there are none |
| `Vaccination.PivotCellPresent` | CountryWiseDailyVaccination.py:19-25 | A pivot cell holds a value exactly when some row of its date and location has a value |
| `Vaccination.FillFrom` | CountryWiseDailyVaccination.py:30 | Filling a column with a carried value keeps the column's length |
| `Vaccination.ForwardFill` | CountryWiseDailyVaccination.py:30 | Forward fill keeps the column's length |
| `Vaccination.FillFromAt` | CountryWiseDailyVaccination.py:27-30 | Cell i after filling is the last non-null cell among rows 0..i, or the carried value if there is none |
| `Vaccination.FillIsLastValue` | CountryWiseDailyVaccination.py:27-30 | Cell i after forward fill is the most recent non-null cell at or above row i, or null if there is none |
| `Vaccination.FillMostRecent` | CountryWiseDailyVaccination.py:27-30 | A null cell whose nearest earlier non-null cell is at row j holds that cell's value after the fill |
| `Vaccination.FillKeepsValues` | CountryWiseDailyVaccination.py:30 | Forward fill never changes a non-null cell |
| `Vaccination.FillLeadingNulls` | CountryWiseDailyVaccination.py:30 | Nulls before a column's first value stay null: nothing is filled backwards |
| `Vaccination.FillNoGaps` | CountryWiseDailyVaccination.py:27-30 | After the fill, no cell below a column's first value is null |
| `Vaccination.FillFromIdempotent` | CountryWiseDailyVaccination.py:30 | Filling twice with the same carried value equals filling once |
| `Vaccination.FillIdempotent` | CountryWiseDailyVaccination.py:30 | Forward-filling an already filled column returns it unchanged |
| `Vaccination.FillPivot` | CountryWiseDailyVaccination.py:30 | Filling the table keeps its dates, its set of columns, and each column's length |
| `Vaccination.FillPivotIdempotent` | CountryWiseDailyVaccination.py:30 | Filling the whole pivot twice equals filling it once |
| `Vaccination.KeptReportedAt` | CountryWiseDailyVaccination.py:15-16 | After the country filter, a location has a value exactly when it is listed and had a value in the input |
| `Vaccination.VaccinationColumns` | CountryWiseDailyVaccination.py:15-30 | The final table has a column exactly for each listed country with a value in the input, and each column has one cell per date |
| `Vaccination.VaccinationCells` | CountryWiseDailyVaccination.py:15-30 | The final table's dates are strictly ascending, and each cell is the most recent pivot value at or above it |
| `Vaccination.PlottableIff` | CountryWiseDailyVaccination.py:43-46 | `pivot[country]` exists for all four countries exactly when each of them has at least one value in the input |
| `Vaccination.Colors` | CountryWiseDailyVaccination.py:33-35 | The colour map's keys are exactly the listed countries. The highlighted country is '#129583' and every other country is 'grey' |
| `Vaccination.Alphas` | CountryWiseDailyVaccination.py:33-36 | The opacity map's keys are exactly the listed countries. The highlighted country is 1.0 and every other country is 0.75 |
| `Vaccination.ScriptStyles` | CountryWiseDailyVaccination.py:33-36 | Both maps of the script have exactly the four countries as keys. "United States" gets '#129583' and 1.0, and every other country gets 'grey' and 0.75 |
| `Vaccination.GapDayDropped` | CountryWiseDailyVaccination.py:19-30 | Germany 1.0, null, 3.0 on days 1-3 with no other country yields dates [1, 3] and column [1.0, 3.0] |
| `Vaccination.GapDayFilled` | CountryWiseDailyVaccination.py:19-30 | With Israel reporting on day 2, Germany's filled column is [1.0, 1.0, 3.0] |
| `Population.SelectYear` | plagiarism1.py:2 | A row is kept exactly when its year matches, and every kept row has that year |
| `Population.SelectContinent` | plagiarism1.py:2 | A row is kept exactly when its continent matches, and every kept row has that continent |
| `Population.Asia2007` | plagiarism1.py:2 | After both queries every row has year 2007 and continent 'Asia', and every input row meeting both conditions is kept |
| `Population.Asia2007InOrder` | plagiarism1.py:2 | The chained queries are one selection by both conditions, and they keep row order |
| `Population.Relabeled` | plagiarism1.py:3 | Row count is kept. Pop, year and continent are kept. Rows under 2,000,000 get country "Other countries". Rows at or above it are unchanged |
| `Population.RelabelIdempotent` | plagiarism1.py:3 | Relabelling twice gives the same table as relabelling once |
| `Population.RelabelSmall` | plagiarism1.py:3 | The in-place masked write turns the array into the relabelled table. Only the country of rows under the threshold changes, and every other field and row stays as it was |
| `Population.AddToSpec` | plagiarism1.py:4 | Adding a row to the slices keeps one slice per label and adds its label to the labels. It adds its pop to the whole and to its own slice only |
| `Population.SlicesSpec` | plagiarism1.py:4 | There is one slice per label present in the rows, and each label's slice holds that label's summed pop. The slices together hold the total pop |
| `Population.SliceIsLabelPop` | plagiarism1.py:4 | Each slice's total is the summed pop of the rows with its label |
| `Population.RelabeledLabelPop` | plagiarism1.py:3-4 | After relabelling, "Other countries" sums the pop of the rows under the threshold. Any other label sums the pop of its rows at or above the threshold |
| `Population.TotalPopRelabeled` | plagiarism1.py:3-4 | Relabelling does not change the total population |
| `Population.PieOfRelabeled` | plagiarism1.py:3-4 | The pie's slices sum to the input's total population. The "Other countries" slice equals the summed pop of the rows under the threshold. Each named slice is its country's pop at or above the threshold |
| `Population.AllSmall` | plagiarism1.py:3-4 | When every row is under the threshold, the pie is one "Other countries" slice holding the whole population |
| `Population.PopulationPie` | plagiarism1.py:2-4 | The script's slices have distinct labels and sum to the population of Asia in 2007. "Other countries" holds the pop of the rows under the threshold. Each other label holds its country's pop at or above the threshold, and every other slice names a 2007 Asian country with such a row |
| `Population.ChinaBhutan` | plagiarism1.py:3-4 | China (1.3e9) and Bhutan (7e5) become slices "China" 1.3e9 and "Other countries" 7e5 |

## Left out

- Loading the data is not modelled. This covers the remote CSV read with date parsing (CountryWiseDailyVaccination.py:10-13) and `px.data.gapminder()` (plagiarism1.py:2). Both are I/O or library calls, so the model takes the rows as input.
- Dates are day numbers (`int`). Only their order and equality matter to the pivot.
- Drawing is not modelled. This covers the matplotlib figure, axes, ticks and labels (CountryWiseDailyVaccination.py:39-81), with the text placed at `pivot.index[-1]` and `pivot[country].max()`. It also covers building and showing the plotly figure (plagiarism1.py:4-5) beyond the per-label sum. These are side effects on an opaque drawing context. The one requirement the plotting loop puts on the data, that every column exists, is stated by `Vaccination.PlottableIff`.
- Metric values are mathematical reals, and NaN is `None`. Floating-point rounding in the mean is not modelled.
- Populations are `nat`: gapminder has no negative population, and plotly would leave a negative value out of the pie, which the model does not describe.
- `pop < 2.e6` is compared as the integer `pop < 2000000`. This is exact because gapminder populations are whole numbers.
- Rows with a missing date or location are not modelled: `Observation` has no null there. `groupby` would drop such rows.
- Column order is not modelled. pandas sorts column labels, but the script reads columns only by name, so the pivot's columns are a `map`.
- Slice order is not claimed. `Population.Slices` lists labels in order of first appearance, and plotly may draw them in another order (by default it sorts by size). The claims concern only which slices exist and what they hold.
- A row whose country is already "Other countries" also lands in that slice, whatever its pop. `OtherPop` states this, and the pie lemmas are stated with it. Gapminder has no such row.
