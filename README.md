# Data table view state, in Dafny

This project models the logic inside the `Table` view component of a React data-table
widget (`src/Components/Table/Table.tsx`): client-side sorting of the row set by one
column, the page window shown on screen and the page count handed to the pagination
bar, the page/page-size transitions with their two effects, and the selection counter.
Rendering is not modelled.

- `paging.dfy`, module `Paging`: the page window, computed exactly as
  `[...rowData].splice((currentPage - 1) * rowPerPage, rowPerPage)` does for any integer
  page and page size (a negative start counts from the end, counts are clamped), the page
  count `Math.ceil(n / rowPerPage)`, the default page size, and lemmas that the pages
  1..pageCount are non-empty, partition the rows in order, and that the last page holds
  `n mod rowPerPage` rows (or a full page).
- `sorting.dfy`, module `Sorting`: rows as maps from field names to text or integer
  values; the sort key (strings upper-cased, numbers as they are, `undefined` for a
  missing field); JavaScript's `<` on keys; the comparator of `sortData`, which never
  returns 0; and `SortRows`, which copies the rows into a fresh array and sorts it in
  place with that comparator (insertion sort). The result is always a permutation of the
  input, and, when every row holds the field with values of one type, it is ordered in
  the direction chosen by the `kind` flag; rows with differing keys are then in strict
  order and rows with equal keys in either order.
- `table.dfy`, module `DataTable`: class `Table`, whose fields are the component's state
  (`currentRows`, `currentPage`, `rowPerPage`), the `sortedField` ref (`sortedTitle`,
  `sortedKind`) and the two context values the component writes (`rowData`,
  `countSelected`). Each handler and each effect is a method; `ChangePage`, `Mount`,
  `ReceiveRows` and `HeaderClick` chain them in the order React runs them, and the
  predicate `Settled()` says the rows on screen are the window of the current page.

`sortData` flips `kind` on every sort, whatever the field (`Table.tsx:24-25`). So sorting
a new column goes in the direction opposite to the previous sort; `SortData` states this.

## Model

| member | source | states |
|---|---|---|
| `Paging.SpliceStart` | src/Components/Table/Table.tsx:47 | the start of `splice` is clamped into the array: a non-negative start is capped at the length, a negative one counts from the end and stops at 0 |
| `Paging.SpliceCount` | src/Components/Table/Table.tsx:47 | `splice` removes exactly `min(max(deleteCount, 0), n - s)` elements from start s, so never more than requested and never past the end of the array |
| `Paging.Splice` | src/Components/Table/Table.tsx:47 | `splice` on the copy returns `min(max(deleteCount, 0), n - s)` rows, where s is the clamped start, and they are the rows of `rows` from s on, in order |
| `Paging.Window` | src/Components/Table/Table.tsx:46-49 | the page window never exceeds the page size; for page p >= 1 and size k >= 1 it is exactly `rows[(p-1)*k .. min(p*k, n)]` (empty once the start passes n), of length `min(k, max(0, n-(p-1)*k))` |
| `Paging.PageCount` | src/Components/Table/Table.tsx:118 | the page count is the ceiling of n / k: 0 exactly when there are no rows, otherwise the least r with `(r-1)*k < n <= r*k` |
| `Paging.DefaultRowsPerPage` | src/Components/Table/Table.tsx:13 | the initial page size is the caller's `rowsPerPage` when it is given and non-zero, and 10 otherwise; it is never 0 |
| `Paging.PagesArePrefix` | src/Components/Table/Table.tsx:46-49 | the windows of pages 1..m, concatenated in order, are exactly the first `min(m*k, n)` rows |
| `Paging.PagesCoverRows` | src/Components/Table/Table.tsx:118 | reading pages 1..pageCount in order gives back every row once, in order |
| `Paging.PageNonEmpty` | src/Components/Table/Table.tsx:118 | every page from 1 to the page count shows at least one row and at most a page size of rows |
| `Paging.PageBeyondLastEmpty` | src/Components/Table/Table.tsx:47 | a page number past the page count shows no rows |
| `Paging.LastPageSize` | src/Components/Table/Table.tsx:118 | the last page holds `n - (pageCount-1)*k` rows, which is `n mod k`, or k when k divides n |
| `Sorting.UpperChar` | src/Components/Table/Table.tsx:20-21 | upper-casing maps each ASCII lower-case letter to its capital and leaves every other character alone |
| `Sorting.UpperCase` | src/Components/Table/Table.tsx:20-21 | the upper-cased key has the length of the string and is upper-cased character by character |
| `Sorting.SortKey` | src/Components/Table/Table.tsx:20-21 | the key is `undefined` exactly when the row lacks the field; a number field gives its number; a string field gives its upper-cased string, which holds no lower-case ASCII letter |
| `Sorting.SortKeyIgnoresCase` | src/Components/Table/Table.tsx:20-22 | two rows whose strings differ only in ASCII letter case compare equal: neither must come before the other, in either direction |
| `Sorting.LexLess` | src/Components/Table/Table.tsx:22 | string `<` never holds between equal strings, and a proper prefix is below the longer string |
| `Sorting.KeyLess` | src/Components/Table/Table.tsx:22 | key `<` holds only between two different keys of one type; any comparison with `undefined` or across string and number is false |
| `Sorting.LexLessIrreflexive` | src/Components/Table/Table.tsx:22 | no string is below itself under `<` |
| `Sorting.LexLessTransitive` | src/Components/Table/Table.tsx:22 | string `<` is transitive |
| `Sorting.LexLessTotal` | src/Components/Table/Table.tsx:22 | of two different strings one is below the other under `<` |
| `Sorting.LexLessAsymmetric` | src/Components/Table/Table.tsx:22 | two strings are never each below the other |
| `Sorting.KeyLessAsymmetric` | src/Components/Table/Table.tsx:22 | two keys are never each below the other, whatever their types |
| `Sorting.KeyLessTotal` | src/Components/Table/Table.tsx:22 | two different keys of one type (both strings or both numbers) are ordered one way or the other |
| `Sorting.KeyNotLessTransitive` | src/Components/Table/Table.tsx:22 | on keys of one type, "not below" is transitive, so the comparator is consistent on such keys |
| `Sorting.Compare` | src/Components/Table/Table.tsx:19-23 | the comparator returns -1 or 1, never 0; it puts x first when x's key must come first in the chosen direction, and y first when y's must |
| `Sorting.PrecedesAsymmetric` | src/Components/Table/Table.tsx:22 | no two rows must each come before the other in a sort |
| `Sorting.NotPrecedesTransitive` | src/Components/Table/Table.tsx:22 | for rows whose keys are of one type, "need not come before" is transitive |
| `Sorting.ComparablePermutation` | src/Components/Table/Table.tsx:18-19 | whether every row holds the field with values of one type does not depend on the order of the rows |
| `Sorting.SortedDistinctKeys` | src/Components/Table/Table.tsx:20-22 | in a sorted sequence of comparable rows, two rows whose keys differ stand in strict order: ascending when `kind` was set, descending otherwise |
| `Sorting.InsertionDone` | src/Components/Table/Table.tsx:19-23 | once the comparator puts the inserted row after its left neighbour, the rows up to it are sorted |
| `Sorting.SwapKeepsInvariant` | src/Components/Table/Table.tsx:19-23 | exchanging two neighbours the comparator reports out of order keeps the rows a permutation and moves the insertion point one place left |
| `Sorting.InsertLast` | src/Components/Table/Table.tsx:19 | one insertion pass over the array keeps it a permutation and extends the sorted prefix by one row |
| `Sorting.SortRows` | src/Components/Table/Table.tsx:18-23 | sorting the copy yields a permutation of the rows; when the rows are comparable on the field, no row stands after one that must precede it in the direction chosen |
| `DataTable.Table.constructor` | src/Components/Table/Table.tsx:11-14 | the first render has no rows on screen, page 1, the default page size (never 0), and an empty sorted field with `kind` set |
| `DataTable.Table.CheckboxCount` | src/Components/Table/Table.tsx:91-97 | one row checkbox is rendered per row on screen when checkboxes are shown, and none when they are hidden |
| `DataTable.Table.SortData` | src/Components/Table/Table.tsx:17-27 | the context's rows become a permutation of themselves, sorted by the field in the direction `kind` held before the call; the ref records the field and `kind` flips |
| `DataTable.Table.Pagination` | src/Components/Table/Table.tsx:46-49 | the rows on screen become the window of the current page; the row set is not changed |
| `DataTable.Table.PageSizeEffect` | src/Components/Table/Table.tsx:63-65 | a page-size change leaves the view on page 1: it resets the page when elsewhere, and otherwise recomputes the window of page 1 |
| `DataTable.Table.Mount` | src/Components/Table/Table.tsx:59-65 | after the first render's effects the view is on page 1 with its window on screen |
| `DataTable.Table.ReceiveRows` | src/Components/Table/Table.tsx:59-61 | a new row set puts the current page's window of the new rows on screen |
| `DataTable.Table.PageNoHandler` | src/Components/Table/Table.tsx:41-44 | the page and the page size are set together to the requested values |
| `DataTable.Table.ChangePage` | src/Components/Table/Table.tsx:41-65 | after a pagination request and its effects the size is the requested one, the page is 1 when the size changed and the requested page otherwise; when the page or the size changed (or the view was already showing its page), the rows on screen are that page's window; when neither changed, no effect runs and the rows on screen stay as they were |
| `DataTable.Table.HeaderClick` | src/Components/Table/Table.tsx:80 | a click on a sortable header sorts by its field and re-renders the current page; on any other header nothing changes |
| `DataTable.Table.SelectAllRows` | src/Components/Table/Table.tsx:29-35 | select-all sets the counter to the number of row checkboxes rendered when checked, and to 0 when unchecked |
| `DataTable.Table.SelectRow` | src/Components/Table/Table.tsx:37-39 | a row check adds one to the counter and an uncheck subtracts one |
| `DataTable.Table.CheckThenUncheck` | src/Components/Table/Table.tsx:37-39 | checking a row and unchecking it again restores the counter |
| `DataTable.Table.SortTwice` | src/Components/Table/Table.tsx:24-25 | two sorts of the same field end sorted in the direction opposite to the first, with `kind` back where it started |

## Left out

- Rendering: the JSX markup, CSS classes, colours, the responsive and resizable flags, the no-data banner and the sort-arrow icons are presentation and are not modelled.
- `closeMenuSubItems` and `onRowClick` only forward to context setters or a caller callback that are not part of this model.
- The `Cell`, `Pagination` and `IconButton` components are not part of this model; the pagination bar is represented only by the requests it makes (`ChangePage`) and the page count it receives.
- `selectAllRows` also sets `.checked` on every row checkbox found by `document.querySelectorAll`; that loop is browser I/O, and the model keeps only the count of rendered checkboxes, taken as the number of rows on screen.
- React's scheduling: each effect is an explicit method, run in the order React runs them after a render; batching and re-render timing are not modelled.
- Cell values are restricted to strings and integers. JavaScript's `<` between a string and a number (which converts the string to a number) is modelled as false, like every comparison with `undefined`; floating-point numbers and `NaN` are not modelled.
- `Sorting.UpperCase`: folds ASCII letters only, not the full Unicode `toUpperCase`; strings compare by character code, not by UTF-16 code unit.
- `Sorting.SortRows`: the engine's sort algorithm is not specified; the model sorts with insertion sort using the same comparator. The comparator never returns 0, not even for a row compared with itself, so by ECMAScript's definition it is never a consistent comparator and the order `sort` produces is implementation-defined for every input. The ordering promise of `SortRows` and `SortData` assumes that the engine orders elements by the sign the comparator reports, as insertion sort and the usual merge sorts do; the language does not guarantee this. The promise is stated only when every row holds the field with values of one type, because only then does that sign follow a total order.
- `DataTable.Table.SortData`: promises sortedness only under the same condition as `SortRows`; it always promises a permutation.
- `Paging.PageCount`: requires a positive page size; for a zero or negative size the source computes `Infinity`, `NaN` or a negative count, which the model does not represent.
- Page numbers and page sizes are integers; JavaScript numbers that are fractional are not modelled.
