/** The state of the custom table component and the handlers that change it: the
    filter controls above the table and the pagination control below it. Each handler
    is one atomic transition of the component's state. */
module Table {
  import opened TableFilter
  import opened Pagination

  /** Datasets longer than this are paginated, and the first page holds this many rows. */
  const PageThreshold: nat := 500

  /** The initial page size, `tableData.length > 500 ? 500 : tableData.length`: the
      smaller of the row count and the threshold. */
  function InitialMaxRows(totalRows: nat): (m: nat)
    ensures m <= totalRows && m <= PageThreshold
    ensures m == totalRows || m == PageThreshold
  {
    if totalRows > PageThreshold then PageThreshold else totalRows
  }

  /** `enablePagination`: the dataset has more rows than the threshold, which is
      exactly when the initial page does not hold every row. */
  predicate PaginationEnabled(totalRows: nat): (enabled: bool)
    ensures enabled <==> InitialMaxRows(totalRows) < totalRows
    ensures enabled ==> InitialMaxRows(totalRows) == PageThreshold
  {
    totalRows > PageThreshold
  }

  class CustomTable {
    /** The properties the component is rendered with, taken as fixed while the component
        is mounted: the state below is initialised from them on the first render only. */
    const tableData: seq<Row>
    const tableColumns: seq<Column>
    const searchable: bool

    /** The component's state. */
    var filteredRows: seq<Row>
    var filterValues: FilterValues
    var selectedColumn: string
    var pagePosition: int
    var maxRows: nat

    /** Every row has a cell for every column; every filter key is a column name (the
        column selector and `TableQueryRow` are assumed to pass only column names); the
        filtered rows are drawn from the dataset in order; the page position is never
        negative, and while there are rows to page through it names a real page; a
        non-empty dataset always has a page size of at least one row. */
    ghost predicate Valid()
      reads this
    {
      && (forall row :: row in tableData ==> |tableColumns| <= |row|)
      && (forall name :: name in filterValues ==> 0 <= FindIndex(tableColumns, name))
      && IsSubsequence(filteredRows, tableData)
      && pagePosition >= 0
      && (|tableData| >= 1 ==> maxRows >= 1)
      && (maxRows >= 1 && |filteredRows| >= 1 ==> InPageRange(pagePosition, |filteredRows|, maxRows))
    }

    /** The first render: every row shown, no filter values, first page, and a page size
        of at most 500 rows. */
    constructor (tableData: seq<Row>, tableColumns: seq<Column>, searchable: bool)
      requires forall row :: row in tableData ==> |tableColumns| <= |row|
      ensures Valid()
      ensures this.tableData == tableData && this.tableColumns == tableColumns
      ensures this.searchable == searchable
      ensures filteredRows == tableData && filterValues == map[] && selectedColumn == ""
      ensures pagePosition == 0 && maxRows == InitialMaxRows(|tableData|)
    {
      this.tableData := tableData;
      this.tableColumns := tableColumns;
      this.searchable := searchable;
      filteredRows := tableData;
      filterValues := map[];
      selectedColumn := "";
      pagePosition := 0;
      maxRows := InitialMaxRows(|tableData|);
      new;
      SubsequenceReflexive(tableData);
    }

    /** `rowCount`: the number of filtered rows, never more than the dataset holds. */
    function RowCount(): (n: nat)
      reads this
      requires Valid()
      ensures n <= |tableData|
    {
      SubsequenceLength(filteredRows, tableData);
      |filteredRows|
    }

    /** The text shown in the filter input: the selected column's value, or "". */
    function FilterInputValue(): (v: string)
      reads this
      ensures selectedColumn in filterValues ==> v == filterValues[selectedColumn]
      ensures v != "" ==> selectedColumn in filterValues && filterValues[selectedColumn] == v
    {
      if selectedColumn in filterValues then filterValues[selectedColumn] else ""
    }

    /** Whenever there are filtered rows, the page size is at least one row and the
        position names one of their pages. */
    lemma PositionNamesPage()
      requires Valid() && RowCount() >= 1
      ensures maxRows >= 1 && InPageRange(pagePosition, RowCount(), maxRows)
    {
    }

    /** Under the invariant, every filter key can be read from every row. */
    lemma FilterValuesAddressable()
      requires Valid()
      ensures AllAddressable(tableColumns, filterValues, tableData)
    {
    }

    /** The column selector changes the selected column; its options are "" and the
        column names. */
    method HandleColumnSelectChange(name: string)
      requires Valid()
      requires name == "" || 0 <= FindIndex(tableColumns, name)
      modifies this
      ensures Valid()
      ensures selectedColumn == name
      ensures filteredRows == old(filteredRows) && filterValues == old(filterValues)
      ensures pagePosition == old(pagePosition) && maxRows == old(maxRows)
    {
      selectedColumn := name;
    }

    /** Typing in the filter input sets that column's value and leaves every other key
        and value as it was; nothing is re-filtered until Apply. */
    method HandleFilterInputChange(columnName: string, filterValue: string)
      requires Valid()
      requires 0 <= FindIndex(tableColumns, columnName)
      modifies this
      ensures Valid()
      ensures filterValues == old(filterValues)[columnName := filterValue]
      ensures filterValues.Keys == old(filterValues).Keys + {columnName}
      ensures forall name :: (name in old(filterValues) && name != columnName
        ==> filterValues[name] == old(filterValues)[name])
      ensures columnName == selectedColumn ==> FilterInputValue() == filterValue
      ensures filteredRows == old(filteredRows) && selectedColumn == old(selectedColumn)
      ensures pagePosition == old(pagePosition) && maxRows == old(maxRows)
    {
      filterValues := filterValues[columnName := filterValue];
    }

    /** Apply: filter the whole dataset, never the previously filtered rows, with the
        current values, and go back to the first page. */
    method SetSearchText()
      requires Valid()
      modifies this
      ensures Valid()
      ensures AllAddressable(tableColumns, filterValues, tableData)
      ensures filteredRows == FilterBySearch(tableColumns, filterValues, tableData)
      ensures pagePosition == 0
      ensures maxRows >= 1 ==> InPageRange(pagePosition, RowCount(), maxRows)
      ensures filterValues == old(filterValues) && selectedColumn == old(selectedColumn)
      ensures maxRows == old(maxRows)
    {
      FilterValuesAddressable();
      FilterIsSubsequence(tableColumns, filterValues, tableData);
      pagePosition := 0;
      filteredRows := FilterBySearch(tableColumns, filterValues, tableData);
    }

    /** The rows-per-page selector: "All" means the whole dataset; any change returns
        to the first page. */
    method UpdateMaxRows(choice: PageSize)
      requires Valid()
      requires choice in PageSizeOptions
      modifies this
      ensures Valid()
      ensures maxRows == MaxRowsFor(choice, |tableData|)
      ensures pagePosition == 0
      ensures maxRows >= 1 ==> InPageRange(pagePosition, RowCount(), maxRows)
      ensures filteredRows == old(filteredRows) && filterValues == old(filterValues)
      ensures selectedColumn == old(selectedColumn)
    {
      var countSelection := MaxRowsFor(choice, |tableData|);
      pagePosition := 0;
      maxRows := countSelection;
    }

    /** Previous: one page back unless on the first page. */
    method Previous()
      requires Valid()
      modifies this
      ensures Valid()
      ensures filteredRows == old(filteredRows) && filterValues == old(filterValues)
      ensures selectedColumn == old(selectedColumn) && maxRows == old(maxRows)
      ensures pagePosition == PreviousStep(old(pagePosition))
      ensures maxRows >= 1 && RowCount() >= 1 ==> InPageRange(pagePosition, RowCount(), maxRows)
    {
      if maxRows >= 1 && |filteredRows| >= 1 {
        PreviousStaysInRange(pagePosition, |filteredRows|, maxRows);
      }
      if !PreviousDisabled(pagePosition) {
        pagePosition := pagePosition - 1;
      }
    }

    /** Next: one page forward unless on the last page. With no filtered rows the guard
        never disables it. */
    method Next()
      requires Valid()
      requires maxRows >= 1
      modifies this
      ensures Valid()
      ensures filteredRows == old(filteredRows) && filterValues == old(filterValues)
      ensures selectedColumn == old(selectedColumn) && maxRows == old(maxRows)
      ensures pagePosition == NextStep(old(pagePosition), RowCount(), maxRows)
      ensures RowCount() >= 1 ==> InPageRange(pagePosition, RowCount(), maxRows)
      ensures RowCount() == 0 ==> pagePosition == old(pagePosition) + 1
    {
      if |filteredRows| >= 1 {
        NextStaysInRange(pagePosition, |filteredRows|, maxRows);
      } else {
        NextLeavesRangeWithoutRows(pagePosition, maxRows);
      }
      if !NextDisabled(pagePosition, PageCount(|filteredRows|, maxRows)) {
        pagePosition := pagePosition + 1;
      }
    }

    /** The captions of the pagination control for the current state. */
    function PaginationCaptions(): (c: Caption)
      reads this
      requires Valid() && maxRows >= 1
      ensures c.displayed <= RowCount() && c.displayed <= maxRows
      ensures c.displayed == DisplayedCount(maxRows, RowCount())
      ensures c.total == |tableData| && c.page == pagePosition + 1
      ensures c.pages == PageCount(RowCount(), maxRows)
    {
      Captions(maxRows, RowCount(), |tableData|, pagePosition)
    }

    /** The option the rows-per-page selector shows for the current state. */
    function SelectedPageSize(): (shown: Selected)
      reads this
      ensures shown == ShowsAll <==> maxRows == |tableData|
    {
      SelectedOption(maxRows, |tableData|)
    }
  }
}
