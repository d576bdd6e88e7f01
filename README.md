# Brushing filter and population table preparation, modelled in Dafny

This project models the two pieces of the d3 visualization repository that have logic of their own.

**Parallel-coordinates brushing** (`parallel_plots_brushing/script.js`). The plot draws one line per car record. The lines are ordered by ascending value of the colour column. Each axis carries a horizontal brush. The script keeps a map from axis key to the brushed interval in data units. A cleared brush deletes its key, and any other brush event overwrites the key's interval. After every event the script tests each line in creation (selection) order. This is the colour-sorted order, even after `.raise()` has moved active lines to the front of the paint order. A line is active when its value lies inside every stored interval, with both bounds inclusive. The active records are collected into a new `selected` list, which becomes the chart's published value.

The model is the class `Brushing.Brush`. Its fields are `paths` (the lines in creation order), `selections` (a `map<string, Interval>`) and `selected`. The method `Brushed` updates the map and rebuilds `selected` in a loop. The loop calls `Every`, which walks the stored intervals. Both are proved against the functions `Store`, `Active` and `Selected`, and lemmas state what those functions promise.

**US population by state** (`areas/5-us-population-by-state/static/script.js`, `processData` up to the stacking step).
- The regions CSV becomes a state-to-division map.
- TSV row 0 is dropped. Every other row becomes `{name, values}`, one value per census year from 1790 to 1990. Each cell has its commas stripped and is converted with unary plus. NaN or 0 becomes 0.
- The states are sorted in place by the rank of their division, then by descending total population.
- The states are transposed into one row per year. `columns` is `"date"` followed by the sorted state names.

`Population.ProcessData` runs these steps. It sorts an array in place with `Sorting.InsertionSort`, which also produces the brushing plot's line order.

Modelling conventions:
- A CSV record is a `map<string, real>`.
- A `null` cell is held as 0, because JavaScript's relational operators coerce `null` to 0. A column missing from a record behaves like `undefined`: no comparison accepts it, so the record is inactive on that axis.
- Dates are modelled by their year.
- A year column missing from a TSV row makes the comma-stripping call throw. This is modelled as `Failure(UndefinedCell(row, column))`.

Four points of the brushing code are worth stating plainly, and the model follows them:
- The code never swaps reversed endpoints. An interval with `min > max` matches nothing (`ReversedIntervalSelectsNothing`).
- The code has no "unknown axis" error. Any key can be stored.
- The code has no clear-all operation. Clearing every key one by one leaves an empty map, under which every line is selected (`NoSelectionsSelectAll`).
- The code does not exclude `null` values. They compare as 0.

## Model

| member | source | states |
|---|---|---|
| `Brushing.Store` | parallel_plots_brushing/script.js:98-100 | A null selection removes exactly that key. A non-null selection sets that key to the new interval and replaces any earlier one. Every other key keeps its interval. |
| `Brushing.Every` | parallel_plots_brushing/script.js:103 | The loop over the stored intervals returns true exactly when the record lies within every one of them, with both bounds inclusive. |
| `Brushing.Brush.constructor` | parallel_plots_brushing/script.js:50-55 | The lines are a permutation of the data, in ascending order of the colour column. Nothing is stored and nothing is selected yet. |
| `Brushing.Brush.Brushed` | parallel_plots_brushing/script.js:98-111 | The new selections are the old ones updated by the event. `selected` is rebuilt from empty as the active lines in creation (selection) order, so it depends only on the current selections. |
| `Brushing.SelectedExactlyActive` | parallel_plots_brushing/script.js:101-109 | A record is in `selected` iff it is drawn and active. Each active record occurs as often as it is drawn, and inactive records occur zero times. |
| `Brushing.SelectedAppend` | parallel_plots_brushing/script.js:102-108 | Selection keeps creation (selection) order: selecting from two consecutive stretches of lines is selecting from each and concatenating the results. |
| `Brushing.NoSelectionsSelectAll` | parallel_plots_brushing/script.js:103 | With no stored interval, every line is selected, in creation (selection) order. |
| `Brushing.ReversedIntervalSelectsNothing` | parallel_plots_brushing/script.js:100-103 | A stored interval with `min > max` makes `selected` empty, because endpoints are never reordered. |
| `Brushing.RepeatedEventIsIdempotent` | parallel_plots_brushing/script.js:99-101 | Replaying the same brush event leaves the selections, and hence `selected`, unchanged. |
| `Brushing.StoreNarrows` | parallel_plots_brushing/script.js:100 | Brushing a new axis, or shrinking an axis's interval, gives selections at least as narrow as before. |
| `Brushing.ClearWidens` | parallel_plots_brushing/script.js:99 | Clearing an axis gives selections at least as wide as before. |
| `Brushing.NarrowingShrinksSelected` | parallel_plots_brushing/script.js:103-107 | Under narrower selections, `selected` is a filter of the previous `selected`: no inactive line becomes active, and it never grows. |
| `Brushing.TwoBrushesExample` | parallel_plots_brushing/script.js:98-109 | Three lines. Brushing x to [1, 2] selects the first two. Also brushing y to [4, 9] selects only the first. |
| `Brushing.ColorOrderIsTotalPreorder` | parallel_plots_brushing/script.js:55 | Ascending comparison of the colour column is a consistent (total, transitive) ordering. |
| `Sorting.InsertionSort` | areas/5-us-population-by-state/static/script.js:32-35 | In-place sort by a consistent comparator. Afterwards no element comes before one that the comparator would put earlier, and the array is a permutation of its old contents. |
| `Population.Range` | areas/5-us-population-by-state/static/script.js:26 | Empty iff `stop <= start`. Otherwise it starts at `start`, each element is the previous one plus `step`, and the last element is below `stop` while one more step would reach `stop`. |
| `Population.YearsIsRange` | areas/5-us-population-by-state/static/script.js:26 | The years are `d3.range(1790, 2000, 10)`, that is, 1790 through 1990. |
| `Population.Years` | areas/5-us-population-by-state/static/script.js:26 | There are 21 census years. |
| `Population.YearKeys` | areas/5-us-population-by-state/static/script.js:29 | There is one column header per census year. |
| `Population.RegionByState` | areas/5-us-population-by-state/static/script.js:12 | The map's keys are exactly the states that occur. Each state maps to the division of its last row. |
| `Population.FromEntries` | areas/5-us-population-by-state/static/script.js:37-39 | Building an object from entries gives no more keys than there are entries. |
| `Population.FromEntriesKeys` | areas/5-us-population-by-state/static/script.js:37-39 | A key is in the object iff some entry has that key. |
| `Population.FromEntriesLastWins` | areas/5-us-population-by-state/static/script.js:37-39 | The value under a key is that of the last entry with the key: a later entry overwrites an earlier one. |
| `Population.IndexOf` | areas/5-us-population-by-state/static/script.js:33 | Returns -1 iff the value is absent. Otherwise it returns the position of its first occurrence. |
| `Population.Rank` | areas/5-us-population-by-state/static/script.js:33 | The rank lies between -1 and 8. It is -1 iff the state is unknown or its division is not listed. Otherwise it is the position of the division in the stacking order. |
| `Population.StripCommas` | areas/5-us-population-by-state/static/script.js:29 | The result has no comma and keeps every other character with its multiplicity. |
| `Population.StripCommasIdempotent` | areas/5-us-population-by-state/static/script.js:29 | Stripping commas twice is the same as stripping them once. |
| `Population.CellIgnoresCommas` | areas/5-us-population-by-state/static/script.js:29 | A cell's value is the value of the cell with its commas removed. |
| `Population.CellRoundTrip` | areas/5-us-population-by-state/static/script.js:29 | A cell holding the decimal form of any integer parses back to that integer. |
| `Population.GroupedCellRoundTrip` | areas/5-us-population-by-state/static/script.js:29 | A cell holding a number with thousands separators (e.g. "3,929,214") parses to that number. |
| `Population.BlankCellIsZero` | areas/5-us-population-by-state/static/script.js:29 | An empty cell, or one holding only white space and commas, reads as 0. |
| `Population.NonNumericCellIsZero` | areas/5-us-population-by-state/static/script.js:29 | A cell containing a character that is not a digit, sign, white space, comma, decimal point or ASCII letter is NaN and reads as 0. |
| `Population.ToNumber` | areas/5-us-population-by-state/static/script.js:29 | Unary plus: a blank string is 0. A string converts to a number only if, once trimmed, it is digits with at most a leading sign. Anything else is NaN. |
| `Population.ParseCell` | areas/5-us-population-by-state/static/script.js:29 | A cell that converts to NaN reads as 0. A non-zero value is the number the comma-stripped cell converts to. `CellIgnoresCommas`, `CellRoundTrip`, `GroupedCellRoundTrip` and `BlankCellIsZero` characterise it further. |
| `Population.DecimalRoundTrip` | areas/5-us-population-by-state/static/script.js:29 | The decimal form of a natural number reads back as that number. |
| `Population.YearCells` | areas/5-us-population-by-state/static/script.js:29 | Succeeds iff the row has every year column, returning the cells in year order. Otherwise it fails with a column the row lacks. |
| `Population.ParseRow` | areas/5-us-population-by-state/static/script.js:28-29 | Succeeds iff the row has every year column, giving the row's name and one parsed value per year. Otherwise it reports that row and a missing column. |
| `Population.ParseRows` | areas/5-us-population-by-state/static/script.js:27-30 | Parses rows in order into one state each. The first row lacking a year column is the error. |
| `Population.States` | areas/5-us-population-by-state/static/script.js:27-30 | Row 0 is dropped, and every other row yields exactly one state, in row order (n rows give n-1 states). Each state has one parsed value per year. A failure names the first row after row 0 that lacks a year column. |
| `Population.Sum` | areas/5-us-population-by-state/static/script.js:34 | The total of no values is 0, and of one value is that value. The total of non-negative values is non-negative and at least each single value. |
| `Population.SumAppend` | areas/5-us-population-by-state/static/script.js:34 | The total of two stretches of values is the sum of their totals, for values of any sign. Together with the totals of zero and one value, this fixes `Sum` as the sum that `d3.sum` returns. |
| `Population.Compare` | areas/5-us-population-by-state/static/script.js:32-35 | The comparator's result is -1, 0 or 1. It is 0 exactly when both states have the same rank and the same total. |
| `Population.ComesFirst` | areas/5-us-population-by-state/static/script.js:32-35 | `a` may come before `b` exactly when the comparator on `(a, b)` is not positive. |
| `Population.StateOrderIsTotalPreorder` | areas/5-us-population-by-state/static/script.js:32-35 | The comparator (ascending rank, then descending total) is a consistent (total, transitive) ordering. |
| `Population.SortedIsByDivisionThenTotal` | areas/5-us-population-by-state/static/script.js:32-35 | An order the comparator accepts has non-decreasing rank, with unknown divisions (-1) first. Within equal ranks the totals are non-increasing. |
| `Population.PermutationKeepsYearCount` | areas/5-us-population-by-state/static/script.js:32-35 | Reordering the states keeps one value per year in every state. |
| `Population.TransposeKeys` | areas/5-us-population-by-state/static/script.js:37-39 | Each year row's keys are exactly `"date"` and the state names. |
| `Population.TransposeDate` | areas/5-us-population-by-state/static/script.js:38 | When no state is named "date", row `i` holds its year under `"date"`. |
| `Population.TransposeCells` | areas/5-us-population-by-state/static/script.js:37-39 | With distinct state names, row `i` holds under each state's name that state's `values[i]`. |
| `Population.ProcessData` | areas/5-us-population-by-state/static/script.js:11-40 | Fails exactly when parsing fails, with the same error. Otherwise: the states are a permutation of the parsed states, ordered by division rank and then by descending total; `data` is their transposition over the years; `columns` is `"date"` followed by their names in sorted order. |

## Left out

- Loading the data (`loadData`, `d3.csv`, `d3.tsv`, including the remote fetch): network and file I/O behind promises. Records and rows arrive as values.
- `d3.autoType` conversion of CSV text is not part of this model. Brushing records arrive as numbers, with `null` held as 0.
- All SVG and DOM work: axes, labels, line styling, `.raise()`, the legend, and the `input` event dispatched after each brush. These are rendering side effects. `selected` is stored, and the notification is not modelled.
- Pixel-to-data inversion of the brush extent (`invert` of the axis scale): floating-point library code. Intervals arrive in data space.
- Colour scales and the colour-key dropdown (`updateColorScale`). They only recolour lines. The creation order fixed when the lines are created is kept.
- `d3.stack` with its expand offset, and `createChart`: floating-point normalisation and rendering in library code.
- `Date.UTC`: a year row's date is its year.
- The area chart with missing data, the streamgraph, the normalized stacked area chart and the band chart scripts only configure d3 scales and shapes. None has logic of its own.
- Floating point: brushing values are `real`, with no rounding. Population figures are unbounded integers, which is exact while JavaScript numbers are (below 2^53).
- Sorting.InsertionSort: states that the result is ordered and a permutation, but not that equal elements keep their input order. JavaScript's sort is stable.
- Brushing.Brush.constructor: requires the colour column in every record. A `null` colour value, which d3's comparator turns into NaN, is not modelled. The tie order of the created lines is not stated (see the line above).
- Population.ToNumber: models unary plus on decimal integer literals only (surrounding white space, an optional sign, digits). Fractions, exponents, hexadecimal and `Infinity` are treated as NaN, while JavaScript converts them.
- Population.TsvRow: a row's first, unnamed column is taken to be present as the state name.
- Population.ProcessData: the order of states with equal rank and equal total is left open. JavaScript's sort is stable, so the source keeps them in TSV row order. This follows from the missing stability of `Sorting.InsertionSort`.
- Population.NonNumericCellIsZero: covers only characters that make JavaScript's conversion NaN too. For cells with a decimal point or letters, such as "1.5", "1e3", "0x1F" or "Infinity", the model reads 0 where JavaScript converts (see `Population.ToNumber`).
- Population.FromEntries: JavaScript objects list integer-like keys first. A year row is modelled as a map, which has no key order.
- Brushing.Every: JavaScript walks the stored intervals in insertion order, and the model walks them in an arbitrary order. The result is the same, because the test has no side effects.
