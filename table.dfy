/**
 The view state of the data table: the rows held in the shared table context,
 the page being shown, the page size, the last sort and the selection counter,
 and the transitions the component's handlers and effects apply to them.
 */
module DataTable {
  import opened Paging
  import opened Sorting

  /** A column header: the field it shows and whether clicking it sorts. */
  datatype Column = Column(title: string, sortable: bool)

  /** The caller's display options that the view's logic reads. */
  datatype TableOptions = TableOptions(rowsPerPage: Option<int>, selectableRowsHideCheckboxes: bool)

  class Table {
    /** The shared context's row set (`mainContext.rowData`). */
    var rowData: seq<Row>
    /** The shared context's selection counter (`mainContext.countSelectedRows`). */
    var countSelected: int
    /** The rows on screen (`currentRows`). */
    var currentRows: seq<Row>
    var currentPage: int
    var rowPerPage: int
    /** The `sortedField` ref: the last sorted field and the direction of the next sort. */
    var sortedTitle: string
    var sortedKind: bool
    /** Whether the row checkboxes are left out of the markup. */
    const hideCheckboxes: bool

    /** The first render: no rows on screen yet, page 1, the default page size, and no sort. */
    constructor (rows: seq<Row>, count: int, options: Option<TableOptions>)
      ensures rowData == rows && countSelected == count
      ensures currentRows == [] && currentPage == 1
      ensures rowPerPage == DefaultRowsPerPage(if options.Some? then options.value.rowsPerPage else None)
      ensures rowPerPage != 0
      ensures sortedTitle == "" && sortedKind
      ensures hideCheckboxes == (options.Some? && options.value.selectableRowsHideCheckboxes)
    {
      rowData, countSelected := rows, count;
      currentRows, currentPage := [], 1;
      rowPerPage := DefaultRowsPerPage(if options.Some? then options.value.rowsPerPage else None);
      sortedTitle, sortedKind := "", true;
      hideCheckboxes := options.Some? && options.value.selectableRowsHideCheckboxes;
    }

    /** The rows on screen are the window of the current page. */
    ghost predicate Settled()
      reads this
    {
      currentRows == Window(rowData, currentPage, rowPerPage)
    }

    /** The number of row checkboxes rendered: one per row on screen, unless hidden. */
    function CheckboxCount(): (c: nat)
      reads this
      ensures c <= |currentRows|
      ensures !hideCheckboxes ==> c == |currentRows|
      ensures hideCheckboxes ==> c == 0
    {
      if hideCheckboxes then 0 else |currentRows|
    }

    /** `sortData`: replaces the context's rows by a sorted copy, ascending when the
        `kind` flag is set and descending otherwise, then records the field and flips
        the flag, so that the next sort of the same field goes the other way. */
    method SortData(fieldTitle: string)
      modifies this`rowData, this`sortedTitle, this`sortedKind
      ensures multiset(rowData) == multiset(old(rowData))
      ensures Comparable(old(rowData), fieldTitle) ==> SortedBy(rowData, fieldTitle, old(sortedKind))
      ensures sortedTitle == fieldTitle && sortedKind == !old(sortedKind)
    {
      var tempData := SortRows(rowData, fieldTitle, sortedKind);
      sortedTitle := fieldTitle;
      sortedKind := !sortedKind;
      rowData := tempData;
    }

    /** `pagination`: puts the window of the current page on screen. */
    method Pagination()
      modifies this`currentRows
      ensures currentRows == Window(rowData, currentPage, rowPerPage)
      ensures Settled()
    {
      currentRows := Window(rowData, currentPage, rowPerPage);
    }

    /** The effect on `rowPerPage`: back to page 1 when elsewhere (the page change then
        re-runs `pagination`), or recompute the window of page 1. */
    method PageSizeEffect()
      modifies this`currentPage, this`currentRows
      ensures currentPage == 1
      ensures old(currentPage) != 1 ==> currentRows == old(currentRows)
      ensures old(currentPage) == 1 ==> Settled()
    {
      if currentPage != 1 {
        currentPage := 1;
      } else {
        Pagination();
      }
    }

    /** The effects after the first render: the page effect, then the page size effect,
        which finds the view on page 1 and recomputes its window. */
    method Mount()
      modifies this`currentPage, this`currentRows
      ensures currentPage == 1 && Settled()
    {
      Pagination();
      var pageBefore := currentPage;
      PageSizeEffect();
      if currentPage != pageBefore {
        Pagination();
      }
    }

    /** A new row set in the context (a sort, a filter or a search elsewhere) re-runs the
        page effect: the current page of the new rows goes on screen. */
    method ReceiveRows(rows: seq<Row>)
      modifies this`rowData, this`currentRows
      ensures rowData == rows && Settled()
    {
      rowData := rows;
      Pagination();
    }

    /** `pageNoHandler`: sets page and page size together. */
    method PageNoHandler(pageNo: int, perPage: int)
      modifies this`currentPage, this`rowPerPage
      ensures currentPage == pageNo && rowPerPage == perPage
    {
      currentPage := pageNo;
      rowPerPage := perPage;
    }

    /** A request from the pagination bar followed by the effects it triggers, in
        the order React runs them: the page effect when the page changed, the page
        size effect when the size changed, and the page effect again when that one
        moved the view back to page 1. A new page size always lands on page 1. */
    method ChangePage(pageNo: int, perPage: int)
      modifies this`currentPage, this`rowPerPage, this`currentRows
      ensures rowPerPage == perPage
      ensures currentPage == if perPage != old(rowPerPage) then 1 else pageNo
      ensures pageNo != old(currentPage) || perPage != old(rowPerPage) || old(Settled()) ==> Settled()
      ensures pageNo == old(currentPage) && perPage == old(rowPerPage) ==> currentRows == old(currentRows)
    {
      var oldPage, oldSize := currentPage, rowPerPage;
      PageNoHandler(pageNo, perPage);
      if currentPage != oldPage {
        Pagination();
      }
      if rowPerPage != oldSize {
        var pageBefore := currentPage;
        PageSizeEffect();
        if currentPage != pageBefore {
          Pagination();
        }
      }
    }

    /** A click on a column header: sorts by its field when the column is sortable;
        the new row set then re-runs `pagination` on the same page. */
    method HeaderClick(column: Column)
      modifies this`rowData, this`sortedTitle, this`sortedKind, this`currentRows
      ensures !column.sortable ==>
                rowData == old(rowData) && sortedTitle == old(sortedTitle) &&
                sortedKind == old(sortedKind) && currentRows == old(currentRows)
      ensures column.sortable ==>
                multiset(rowData) == multiset(old(rowData)) &&
                sortedTitle == column.title && sortedKind == !old(sortedKind) && Settled()
      ensures column.sortable && Comparable(old(rowData), column.title) ==>
                SortedBy(rowData, column.title, old(sortedKind))
    {
      if column.sortable {
        SortData(column.title);
        Pagination();
      }
    }

    /** `selectAllRows`: the counter becomes the number of row checkboxes rendered
        when checked, and 0 when unchecked. */
    method SelectAllRows(checked: bool)
      modifies this`countSelected
      ensures countSelected == if checked then CheckboxCount() else 0
    {
      countSelected := if checked then CheckboxCount() else 0;
    }

    /** `selectRow`: one more selected row when checked, one fewer when unchecked. */
    method SelectRow(checked: bool)
      modifies this`countSelected
      ensures countSelected == old(countSelected) + (if checked then 1 else -1)
    {
      countSelected := if checked then countSelected + 1 else countSelected - 1;
    }

    /** Checking a row and unchecking it again leaves the counter where it was. */
    method CheckThenUncheck()
      modifies this`countSelected
      ensures countSelected == old(countSelected)
    {
      SelectRow(true);
      SelectRow(false);
    }

    /** Sorting the same field twice sorts it first in one direction and then in the
        other, and ends with the `kind` flag where it started. */
    method SortTwice(fieldTitle: string)
      modifies this`rowData, this`sortedTitle, this`sortedKind
      ensures multiset(rowData) == multiset(old(rowData))
      ensures Comparable(old(rowData), fieldTitle) ==> SortedBy(rowData, fieldTitle, !old(sortedKind))
      ensures sortedTitle == fieldTitle && sortedKind == old(sortedKind)
    {
      SortData(fieldTitle);
      ghost var once := rowData;
      SortData(fieldTitle);
      if Comparable(old(rowData), fieldTitle) {
        ComparablePermutation(old(rowData), once, fieldTitle);
      }
    }
  }
}
