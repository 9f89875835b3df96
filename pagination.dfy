/** The pagination control under the table: page count, the Previous/Next guards
    and steps, the rows-per-page selector and the captions it shows. */
module Pagination {

  /** `Math.ceil(rowCount / maxRows)` on whole numbers: the fewest pages of `maxRows`
      rows that hold `rowCount` rows. */
  function PageCount(rowCount: nat, maxRows: nat): (pages: nat)
    requires maxRows >= 1
    ensures rowCount <= pages * maxRows
    ensures pages == 0 || (pages - 1) * maxRows < rowCount
  {
    var pages := (rowCount + maxRows - 1) / maxRows;
    assert pages * maxRows + (rowCount + maxRows - 1) % maxRows == rowCount + maxRows - 1;
    assert (pages - 1) * maxRows == pages * maxRows - maxRows;
    pages
  }

  /** There are no pages exactly when there are no rows. */
  lemma NoPagesIffNoRows(rowCount: nat, maxRows: nat)
    requires maxRows >= 1
    ensures PageCount(rowCount, maxRows) == 0 <==> rowCount == 0
  {
    var pages := PageCount(rowCount, maxRows);
    if pages == 0 {
      assert pages * maxRows == 0;
    }
  }

  /** Rows that fit on one page make exactly one page. */
  lemma OnePageWhenRowsFit(rowCount: nat, maxRows: nat)
    requires 1 <= rowCount <= maxRows
    ensures PageCount(rowCount, maxRows) == 1
  {
    NoPagesIffNoRows(rowCount, maxRows);
  }

  /** Previous is disabled on the first page (`pagePosition === 0`). */
  predicate PreviousDisabled(pagePosition: int): (disabled: bool)
    ensures pagePosition >= 0 && !disabled ==> pagePosition - 1 >= 0
    ensures pagePosition > 0 ==> !disabled
  {
    pagePosition == 0
  }

  /** Next is disabled on the last page (`pagePosition === pageCount - 1`). With no rows
      the page count is 0, so this never holds for a position that is at least 0. */
  predicate NextDisabled(pagePosition: int, pageCount: nat): (disabled: bool)
    ensures pageCount == 0 && pagePosition >= 0 ==> !disabled
    ensures 0 <= pagePosition < pageCount && !disabled ==> pagePosition + 1 < pageCount
    ensures pagePosition >= pageCount ==> !disabled
  {
    pagePosition == pageCount - 1
  }

  /** A click on Previous: one page back unless the button is disabled. */
  function PreviousStep(pagePosition: int): (next: int)
    ensures next <= pagePosition
    ensures pagePosition >= 0 ==> next >= 0
    ensures next == pagePosition <==> PreviousDisabled(pagePosition)
  {
    if PreviousDisabled(pagePosition) then pagePosition else pagePosition - 1
  }

  /** A click on Next: one page forward unless the button is disabled. */
  function NextStep(pagePosition: int, rowCount: nat, maxRows: nat): (next: int)
    requires maxRows >= 1
    ensures next >= pagePosition
    ensures next == pagePosition <==> NextDisabled(pagePosition, PageCount(rowCount, maxRows))
  {
    if NextDisabled(pagePosition, PageCount(rowCount, maxRows)) then pagePosition else pagePosition + 1
  }

  /** The positions a page label can truthfully show: a real page, or page 0 of an
      empty result. */
  predicate InPageRange(pagePosition: int, rowCount: nat, maxRows: nat)
    requires maxRows >= 1
  {
    0 <= pagePosition && (pagePosition == 0 || pagePosition < PageCount(rowCount, maxRows))
  }

  /** Previous keeps a valid position valid. */
  lemma PreviousStaysInRange(pagePosition: int, rowCount: nat, maxRows: nat)
    requires maxRows >= 1
    requires InPageRange(pagePosition, rowCount, maxRows)
    ensures InPageRange(PreviousStep(pagePosition), rowCount, maxRows)
  {
  }

  /** Next keeps a valid position valid as long as there is at least one row. */
  lemma NextStaysInRange(pagePosition: int, rowCount: nat, maxRows: nat)
    requires maxRows >= 1 && rowCount >= 1
    requires InPageRange(pagePosition, rowCount, maxRows)
    ensures InPageRange(NextStep(pagePosition, rowCount, maxRows), rowCount, maxRows)
  {
    NoPagesIffNoRows(rowCount, maxRows);
  }

  /** With no rows the Next guard never fires: from any position at least 0, Next moves
      forward, so from page 0 it reaches position 1 although there is no page at all. */
  lemma NextLeavesRangeWithoutRows(pagePosition: int, maxRows: nat)
    requires maxRows >= 1 && pagePosition >= 0
    ensures PageCount(0, maxRows) == 0
    ensures NextStep(pagePosition, 0, maxRows) == pagePosition + 1
    ensures !InPageRange(NextStep(0, 0, maxRows), 0, maxRows)
  {
    NoPagesIffNoRows(0, maxRows);
  }

  /** On the last page Next changes nothing. */
  lemma NextIdleOnLastPage(rowCount: nat, maxRows: nat)
    requires maxRows >= 1 && rowCount >= 1
    ensures NextStep(PageCount(rowCount, maxRows) - 1, rowCount, maxRows) == PageCount(rowCount, maxRows) - 1
  {
  }

  /** Previous undoes an enabled Next, and Next undoes an enabled Previous within range. */
  lemma PreviousAndNextUndoEachOther(pagePosition: int, rowCount: nat, maxRows: nat)
    requires maxRows >= 1 && pagePosition >= 0
    ensures !NextDisabled(pagePosition, PageCount(rowCount, maxRows))
        ==> PreviousStep(NextStep(pagePosition, rowCount, maxRows)) == pagePosition
    ensures !PreviousDisabled(pagePosition) && pagePosition < PageCount(rowCount, maxRows)
        ==> NextStep(PreviousStep(pagePosition), rowCount, maxRows) == pagePosition
  {
  }

  /** An entry of the rows-per-page selector: a fixed page size, or the sentinel "All". */
  datatype PageSize = Rows(count: nat) | All

  /** The selector's options, `[10, 20, 50, "All"]`. */
  const PageSizeOptions: seq<PageSize> := [Rows(10), Rows(20), Rows(50), All]

  /** The page size `updateMaxRows` stores for a selection: "All" becomes the total
      number of rows, a number is itself. */
  function MaxRowsFor(choice: PageSize, totalRows: nat): (m: nat)
    ensures choice == All ==> m == totalRows
    ensures choice in PageSizeOptions && choice != All ==> m in {10, 20, 50}
    ensures choice in PageSizeOptions ==> m >= 1 || totalRows == 0
  {
    match choice
    case All => totalRows
    case Rows(n) => n
  }

  /** What the selector shows as selected. */
  datatype Selected = ShowsAll | ShowsCount(rows: nat)

  /** `maxRows === totalRows ? "All" : maxRows.toString()`. */
  function SelectedOption(maxRows: nat, totalRows: nat): (shown: Selected)
    ensures shown == ShowsAll <==> maxRows == totalRows
    ensures shown.ShowsCount? ==> shown.rows == maxRows
  {
    if maxRows == totalRows then ShowsAll else ShowsCount(maxRows)
  }

  /** Picking an option and reading the selector back: "All" shows as "All"; a number
      shows as itself, except that a number equal to the total also shows as "All". */
  lemma SelectorShowsChoice(choice: PageSize, totalRows: nat)
    requires choice in PageSizeOptions
    ensures choice == All ==> SelectedOption(MaxRowsFor(choice, totalRows), totalRows) == ShowsAll
    ensures choice.Rows? && choice.count != totalRows
        ==> SelectedOption(MaxRowsFor(choice, totalRows), totalRows) == ShowsCount(choice.count)
    ensures choice.Rows? && choice.count == totalRows
        ==> SelectedOption(MaxRowsFor(choice, totalRows), totalRows) == ShowsAll
    ensures MaxRowsFor(choice, totalRows) >= 1 || (choice == All && totalRows == 0)
  {
  }

  /** "All" puts every filtered row on a single page. */
  lemma AllIsOnePage(rowCount: nat, totalRows: nat)
    requires 1 <= rowCount <= totalRows
    ensures PageCount(rowCount, MaxRowsFor(All, totalRows)) == 1
  {
    OnePageWhenRowsFit(rowCount, totalRows);
  }

  /** `Math.min(maxRows, rowCount)`: the count in "Displaying n of total rows". */
  function DisplayedCount(maxRows: nat, rowCount: nat): (n: nat)
    ensures n <= maxRows && n <= rowCount
    ensures n == maxRows || n == rowCount
  {
    if maxRows < rowCount then maxRows else rowCount
  }

  /** The two captions: "Displaying n of total rows" and "Page page of pages". */
  datatype Caption = Caption(displayed: nat, total: nat, page: int, pages: nat)

  function Captions(maxRows: nat, rowCount: nat, totalRows: nat, pagePosition: int): (c: Caption)
    requires maxRows >= 1
    ensures c.displayed <= rowCount && c.displayed <= maxRows
    ensures c.displayed == DisplayedCount(maxRows, rowCount)
    ensures c.total == totalRows
    ensures c.pages == PageCount(rowCount, maxRows)
    ensures c.page - 1 == pagePosition
  {
    Caption(DisplayedCount(maxRows, rowCount), totalRows, pagePosition + 1, PageCount(rowCount, maxRows))
  }

  /** With rows present and a position in range, the page label is a 1-based page
      number no greater than the page count, and at least one row is reported as
      displayed. */
  lemma CaptionsInRange(maxRows: nat, rowCount: nat, totalRows: nat, pagePosition: int)
    requires maxRows >= 1 && rowCount >= 1
    requires InPageRange(pagePosition, rowCount, maxRows)
    ensures 1 <= Captions(maxRows, rowCount, totalRows, pagePosition).page
    ensures Captions(maxRows, rowCount, totalRows, pagePosition).page
         <= Captions(maxRows, rowCount, totalRows, pagePosition).pages
    ensures Captions(maxRows, rowCount, totalRows, pagePosition).displayed >= 1
  {
    NoPagesIffNoRows(rowCount, maxRows);
  }

  /** With no rows the label reads "Page 1 of 0": the first position is labelled 1
      although the page count is 0. */
  lemma CaptionsWithoutRows(maxRows: nat, totalRows: nat)
    requires maxRows >= 1
    ensures Captions(maxRows, 0, totalRows, 0).page == 1
    ensures Captions(maxRows, 0, totalRows, 0).pages == 0
    ensures Captions(maxRows, 0, totalRows, 0).displayed == 0
  {
    NoPagesIffNoRows(0, maxRows);
  }
}
