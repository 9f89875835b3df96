# Table filter and pagination of sql-viewer

This project models the client-side filtering and pagination logic of sql-viewer's table
view. The logic comes from two React components, `CustomTable` and `PaginationCustom`.

- `CustomTable` holds the dataset (`tableData`, `tableColumns`) and the component state:
  `filteredRows`, `filterValues`, `selectedColumn`, `pagePosition` and `maxRows`.
- When Apply is pressed, the full dataset is filtered with the current filter values.
  A row is kept when every `(column, value)` entry holds. An entry holds when the row's
  cell at the first column with that name is not `null` and the cell's display text
  (`cell.text || cell`) contains the value, both lower-cased.
- `PaginationCustom` derives the page count, `ceil(rowCount / maxRows)`. It steps the page
  position with Previous and Next, which are guarded by the buttons' disabled conditions.
  It maps the "All" rows-per-page option to the dataset's length and resets the position
  on every page-size change. It also shows a row-count caption, a page caption and the
  selected option.

Modules (one per concern, each in its own file):

- `Cells` (`cells.dfy`): the cell union `Null | Prim(value) | Structured(text)`, the
  display text of a cell, ASCII lower-casing and `indexOf`.
- `TableFilter` (`table_filter.dfy`): `findIndex` over the columns, the per-entry and
  per-row predicates, the filter itself and the subsequence relation.
- `Pagination` (`pagination.dfy`): the page count, the guards, the Previous/Next steps,
  the page-size options, the selected option and the captions.
- `Table` (`custom_table.dfy`): the class `CustomTable`. It holds the component's state
  and has one method per handler. Each handler is modelled as one atomic transition.

What the code does at its edges:

- The active filters are the keys of `filterValues`. A key is added the first time its
  input is edited and is never removed; a key whose value is "" still excludes rows with a
  `null` cell in that column.
- The components hold no list of distinct column values and signal no errors.
- A page-size change stores 10, 20, 50, or the dataset's length for "All"; nothing clamps it.
- With no filtered rows the page count is 0. Next's guard (`pagePosition === pageCount - 1`)
  then never disables the button, so Next moves past every page
  (`Pagination.NextLeavesRangeWithoutRows`). The page caption then reads "Page 1 of 0"
  (`Pagination.CaptionsWithoutRows`).

## Model

| member | source | states |
|---|---|---|
| `Cells.DisplayText` | src/components/Table/CustomTable.js:38-39 | a primitive cell reads as itself; a structured cell reads as its `text` when that is not empty, and a structured cell never reads as the empty string (an empty `text` falls back to the object's string) |
| `Cells.LowerChar` | src/components/Table/CustomTable.js:40 | the result is never a capital; a capital maps to its small letter (code + 32) and every other character to itself |
| `Cells.ToLower` | src/components/Table/CustomTable.js:40-41 | lower-casing keeps the length and lowers each character on its own |
| `Cells.ToLowerIdempotent` | src/components/Table/CustomTable.js:40-41 | lower-casing twice is the same as lower-casing once |
| `Cells.IndexOf` | src/components/Table/CustomTable.js:41 | the result is the first position where the needle occurs; it is -1 exactly when the needle occurs nowhere |
| `Cells.Contains` | src/components/Table/CustomTable.js:41 | `indexOf(...) >= 0` holds exactly when the needle occurs at some position of the text |
| `Cells.EmptyNeedleFoundAtStart` | src/components/Table/CustomTable.js:41 | the empty value is found at position 0 of every string |
| `TableFilter.FindIndex` | src/components/Table/CustomTable.js:32-34 | the result is the first column with the name; it is -1 exactly when no column has that name |
| `TableFilter.CellOf` | src/components/Table/CustomTable.js:32-35 | the cell read is the row's cell at the position of the first column with the name |
| `TableFilter.Satisfies` | src/components/Table/CustomTable.js:35-41 | an entry holds exactly when the cell is not null and the lower-cased value occurs in the lower-cased display text |
| `TableFilter.MatchesAll` | src/components/Table/CustomTable.js:31-43 | a matching row has no null cell in any filtered column, and with no filter values every row matches |
| `TableFilter.FilterBySearch` | src/components/Table/CustomTable.js:29-44 | the result is no longer than the data, and every kept row is a row of the data that matches every filter value |
| `TableFilter.FilterIsSubsequence` | src/components/Table/CustomTable.js:29-30 | the filtered rows are a subsequence of the data, in original relative order |
| `TableFilter.FilterKeepsExactlyMatching` | src/components/Table/CustomTable.js:30-43 | a row of the data is kept if and only if every entry of the filter values holds for it |
| `TableFilter.FilterKeepsEveryCopy` | src/components/Table/CustomTable.js:30-43 | the result holds a matching row exactly as many times as the data does, and a non-matching row not at all |
| `TableFilter.FilterOfConcat` | src/components/Table/CustomTable.js:30-44 | filtering two pieces of the data and joining the results equals filtering the joined data |
| `TableFilter.FilterOfOneRow` | src/components/Table/CustomTable.js:30-44 | a single row is kept exactly when it matches, and dropped otherwise |
| `TableFilter.FilterKeepsAllWhenAllMatch` | src/components/Table/CustomTable.js:30-31 | when every row matches, the filter returns the data unchanged |
| `TableFilter.NoFiltersKeepAll` | src/components/Table/CustomTable.js:18-19 | with no filter values the result equals the data exactly, which is also the initial `filteredRows` |
| `TableFilter.NullCellFails` | src/components/Table/CustomTable.js:37 | a null cell fails its column's filter whatever the value |
| `TableFilter.NullCellExcludesRow` | src/components/Table/CustomTable.js:36-37 | a row with a null cell in any filtered column is excluded, even for an empty value |
| `TableFilter.EmptyValueMatchesNonNull` | src/components/Table/CustomTable.js:36-41 | an empty filter value is satisfied exactly by the non-null cells |
| `TableFilter.ValueCaseIgnored` | src/components/Table/CustomTable.js:40-41 | a filter value and its lower-cased form select the same cells |
| `TableFilter.MatchesAllAfterUpdate` | src/components/Table/CustomTable.js:31 | setting one value makes a row match if and only if it satisfies that entry and all the other entries |
| `TableFilter.FilterMonotone` | src/components/Table/CustomTable.js:29-31 | if every row matching one set of values matches another, the first result is a subsequence of the second |
| `TableFilter.ClearingValueWidens` | src/components/Table/CustomTable.js:38-41 | clearing one value to "" keeps every previously kept row, in order, so the row count never drops |
| `TableFilter.FilterIdempotent` | src/components/Table/CustomTable.js:29-30 | filtering the filtered rows again with the same values changes nothing |
| `Pagination.PageCount` | src/components/Table/PaginationCustom.js:40 | the page count is the fewest pages of `maxRows` rows that hold all the rows (integer ceiling) |
| `Pagination.NoPagesIffNoRows` | src/components/Table/PaginationCustom.js:40 | there are zero pages exactly when there are zero rows |
| `Pagination.OnePageWhenRowsFit` | src/components/Table/PaginationCustom.js:40 | between 1 and `maxRows` rows make exactly one page |
| `Pagination.PreviousDisabled` | src/components/Table/PaginationCustom.js:45 | Previous is enabled on every page after the first, and an enabled Previous from a position at least 0 cannot go negative |
| `Pagination.NextDisabled` | src/components/Table/PaginationCustom.js:54 | with no pages Next is never disabled; within range an enabled Next leads to a real page; past the last page Next is enabled |
| `Pagination.PreviousStep` | src/components/Table/PaginationCustom.js:45-48 | Previous never moves forward, never makes a position that is at least 0 negative, and changes nothing exactly when on page 0 |
| `Pagination.NextStep` | src/components/Table/PaginationCustom.js:54-57 | Next never moves back, and changes nothing exactly when the position is the page count minus 1 |
| `Pagination.PreviousStaysInRange` | src/components/Table/PaginationCustom.js:45-48 | Previous keeps a position that is in range in range |
| `Pagination.NextStaysInRange` | src/components/Table/PaginationCustom.js:54-57 | with at least one row, Next keeps a position that is in range in range |
| `Pagination.NextLeavesRangeWithoutRows` | src/components/Table/PaginationCustom.js:54-57 | with no rows the page count is 0 and Next always advances, so from 0 it leaves the range |
| `Pagination.NextIdleOnLastPage` | src/components/Table/PaginationCustom.js:54 | on the last page Next changes nothing |
| `Pagination.PreviousAndNextUndoEachOther` | src/components/Table/PaginationCustom.js:45-57 | an enabled Next is undone by Previous, and an enabled Previous is undone by Next |
| `Pagination.MaxRowsFor` | src/components/Table/PaginationCustom.js:22-26 | "All" becomes the total row count; any other option becomes 10, 20 or 50; an option gives at least 1 row unless the dataset is empty |
| `Pagination.SelectedOption` | src/components/Table/PaginationCustom.js:66 | the selector shows "All" exactly when `maxRows` equals the total row count, and otherwise shows `maxRows` |
| `Pagination.SelectorShowsChoice` | src/components/Table/PaginationCustom.js:19-29 | picking "All" shows "All"; picking a number shows that number unless it equals the total, when "All" is shown |
| `Pagination.AllIsOnePage` | src/components/Table/PaginationCustom.js:23-24 | with "All" selected, any non-empty filtered result is exactly one page |
| `Pagination.DisplayedCount` | src/components/Table/PaginationCustom.js:33-36 | the displayed count is at most both `maxRows` and `rowCount` and equals one of them |
| `Pagination.Captions` | src/components/Table/PaginationCustom.js:33-40 | the captions carry the displayed count (the smaller of rows and page size), the total, the 1-based page and the page count |
| `Pagination.CaptionsInRange` | src/components/Table/PaginationCustom.js:38-40 | with rows and a position in range, the page label lies between 1 and the page count |
| `Pagination.CaptionsWithoutRows` | src/components/Table/PaginationCustom.js:33-40 | with no rows the captions read "Displaying 0" and "Page 1 of 0" |
| `Table.InitialMaxRows` | src/components/Table/CustomTable.js:23-25 | the initial page size is the smaller of the row count and 500 |
| `Table.PaginationEnabled` | src/components/Table/CustomTable.js:115 | pagination is enabled exactly when the initial page size is below the row count (beyond 500 rows), and then the first page holds 500 rows |
| `Table.CustomTable.constructor` | src/components/Table/CustomTable.js:18-25 | initially every row is shown, there are no filter values, no column is selected, the position is 0 and `maxRows` is `min(len, 500)` |
| `Table.CustomTable.RowCount` | src/components/Table/CustomTable.js:99-100 | `rowCount` is never more than `totalRows` |
| `Table.CustomTable.FilterInputValue` | src/components/Table/CustomTable.js:82 | the input shows the selected column's value when it has one, and a non-empty input text is always that value |
| `Table.CustomTable.PositionNamesPage` | src/components/Table/PaginationCustom.js:38-57 | whenever there are filtered rows, the page size is at least 1 and the position is a real page of them |
| `Table.CustomTable.HandleColumnSelectChange` | src/components/Table/CustomTable.js:59-61 | only the selected column changes |
| `Table.CustomTable.HandleFilterInputChange` | src/components/Table/CustomTable.js:52-57 | sets one key's value, leaves every other key and value unchanged, does not re-filter, and the input then shows the new value |
| `Table.CustomTable.SetSearchText` | src/components/Table/CustomTable.js:27-50 | Apply filters the full dataset with the current values, not the previous filtered rows, and resets the position to 0 |
| `Table.CustomTable.UpdateMaxRows` | src/components/Table/PaginationCustom.js:22-29 | "All" sets `maxRows` to the total row count, a number sets it to that number, and the position is reset to 0 |
| `Table.CustomTable.Previous` | src/components/Table/PaginationCustom.js:43-48 | the position follows `PreviousStep` and, while there are rows, names a real page |
| `Table.CustomTable.Next` | src/components/Table/PaginationCustom.js:52-57 | the position follows `NextStep`; it names a real page when there are rows, and advances by one when there are none |
| `Table.CustomTable.PaginationCaptions` | src/components/Table/CustomTable.js:116-120 | the captions for the current state: displayed count the smaller of `rowCount` and `maxRows`, total `tableData.length`, 1-based page, and the page count of the filtered rows |
| `Table.CustomTable.SelectedPageSize` | src/components/Table/PaginationCustom.js:66 | the selector shows "All" exactly when `maxRows` equals the dataset's length |

## Left out

- Rendering is not modelled: JSX, CSS, styled-jsx, the `@dhis2/ui` widgets and the PropTypes declarations.
- `downloadURL`, `refreshQuery`, `persistSearch` and `searchableDescription` are passed through to other components untouched. `searchable` only decides whether `setSearchText` is handed to `TableQueryRow`; the class keeps it as a field.
- `TableQueryRow`, `CustomTableBody` and `CustomTableFooter` are not part of this model. The page-window slicing lives there, and so does anything that decides when `PaginationCustom` is shown.
- `tableData` and `tableColumns` are assumed fixed while the component is mounted. After a re-render with new props, React keeps the old `filteredRows` and `maxRows`, so `rowCount` may exceed the new `totalRows` and a stored filter key may stop naming a column; this is not modelled.
- React's asynchronous, batched `setState` is not modelled. Each handler is one atomic transition.
- Cells.ToLower, Cells.LowerChar: only ASCII capitals are lowered. The Unicode case mapping of `toLowerCase` is not modelled.
- Cells.Cell: a primitive cell holds the string it converts to (`toString()`). Numbers are not modelled separately.
- Table.CustomTable.constructor: requires every row to have a cell for every column, as the rows are positional arrays over `tableColumns`. The source does not check this.
- TableFilter.FilterBySearch: every filter key must name a column, and every row must have a cell at that column's position. In the source an unknown key gives index -1, and reading `.text` of `undefined` throws. Keys reach `handleFilterInputChange` from the filter input and from `TableQueryRow` (CustomTable.js:102); `TableQueryRow`, like the column selector, is assumed to pass only column names.
- `CustomTableFooter` (CustomTable.js:113-122) is assumed to forward `maxRows`, `setMaxRows`, `rowCount`, `totalRows`, `pagePosition` and `setPagePosition` to `PaginationCustom` unchanged; the class methods `UpdateMaxRows`, `Previous` and `Next` act on the table's own state on that assumption.
- Table.CustomTable.Next: requires `maxRows >= 1`. The invariant keeps `maxRows >= 1` for every non-empty dataset, so only an empty dataset can have `maxRows` 0 (its initial value), and then `rowCount / maxRows` is NaN in the source. That floating-point case is not modelled. Pagination.PageCount computes `Math.ceil` as integer ceiling division.
- Table.CustomTable.UpdateMaxRows: the selection is one of the four options `10, 20, 50, "All"`, as a datatype. The string parsing by `parseInt` is not modelled.
