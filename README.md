# Sortable table dialogs of the log book: the sort core

The log book's tabular dialogs (`AbstractTableDialog`) show a header and a
body of string rows. Clicking a column header sorts the body by that column. A
refresh fetches the body again and sorts it the same way, but only once a sort
has been configured. This project models that sorting core in Dafny and proves
properties of it.

- `TableSort` (`table_sort.dfy`) holds the pure part. It covers the
  comparator `TableComparator.compare` and what it is built from:
  `StringUtils.leftPad` with `'0'` and the sign of `String.compareTo`. It also
  holds the ordering predicate on a body and an insertion sort that stands in
  for `Collections.sort`. The comparator pads both cells to the longer length
  and compares them lexicographically. An empty cell always sorts last,
  ascending or descending.
- `TableDialog` (`table_dialog.dfy`) holds the state. The class
  `TableComparator` has the fields `confflg`, `index` and `order` and their
  setters. The class `AbstractTableDialog` keeps the header, the `orderflgs`
  array of remembered directions, the comparator, the body and the header's
  sort marker. Its methods model the two `sortTableItems` overloads and
  `reloadTable`. The header lookup is the loop method `HeaderIndex`, specified
  by the function `ColumnIndex`.
- `RefreshSession` and `ClickSession` are client methods that replay short
  sessions. A refresh before any click keeps the fetched order. Clicking a
  column alternates ascending and descending. Clicking another column and
  coming back starts ascending again.

Row values are `seq<char>`. The abstract `updateTableBody` hook becomes the
argument of `ReloadTable`, and the body that `open()` fetches first becomes
the argument of the constructor. A `TableColumn` widget is identified by its
label text.

## Model

| member | source | states |
|---|---|---|
| `TableSort.LeftPad` | main/logbook/gui/AbstractTableDialog.java:340-342 | The padded string is as long as the longer of the string and the requested size. |
| `TableSort.LeftPadShape` | main/logbook/gui/AbstractTableDialog.java:340-342 | The padded string ends with the original string, and everything before it is the pad character. |
| `TableSort.LexCompare` | main/logbook/gui/AbstractTableDialog.java:352-356 | The sign of `compareTo` lies in -1..1 and is 0 exactly when the two strings are equal. |
| `TableSort.LexCompareAntisymmetric` | main/logbook/gui/AbstractTableDialog.java:352-356 | Swapping the operands of `compareTo` negates its sign. |
| `TableSort.CompareCells` | main/logbook/gui/AbstractTableDialog.java:339-357 | The result lies in -1..1. Two empty cells are equal, an empty first cell is greater and an empty second cell is smaller, whatever the direction. |
| `TableSort.CompareCellsAntisymmetric` | main/logbook/gui/AbstractTableDialog.java:339-357 | For every pair of cells and either direction, `compare(a, b) == -compare(b, a)`, empty cells included. |
| `TableSort.LexCompareTransitive` | main/logbook/gui/AbstractTableDialog.java:352-356 | If `a.compareTo(b) <= 0` and `b.compareTo(c) <= 0`, then `a.compareTo(c) <= 0`. |
| `TableSort.CompareCellsTransitive` | main/logbook/gui/AbstractTableDialog.java:339-357 | The comparator's order on cells is transitive in both directions, empty cells and characters other than digits included. |
| `TableSort.CompareCellsStrictlyTransitive` | main/logbook/gui/AbstractTableDialog.java:339-357 | If the comparator puts a strictly before b and b strictly before c, it puts a strictly before c. |
| `TableSort.Compare` | main/logbook/gui/AbstractTableDialog.java:339-357 | On two rows, the result lies in -1..1. Rows with equal cells in the sort column tie, and an empty cell sorts after a non-empty one. |
| `TableSort.CompareCellsFlipOrder` | main/logbook/gui/AbstractTableDialog.java:352-356 | For two non-empty cells, flipping `order` negates the result. |
| `TableSort.ValueLeadingZeros` | main/logbook/gui/AbstractTableDialog.java:340-342 | Prefixing '0's to a decimal string keeps it a decimal string with the same numeric value. |
| `TableSort.LexCompareMatchesValue` | main/logbook/gui/AbstractTableDialog.java:352-356 | On two decimal strings of equal length, the sign of `compareTo` is the sign of the difference of their numeric values. |
| `TableSort.PaddedIsNumeric` | main/logbook/gui/AbstractTableDialog.java:340-342 | Two decimal strings, padded with '0' to the longer length, compare under `compareTo` by their numeric values. |
| `TableSort.AscendingIsNumeric` | main/logbook/gui/AbstractTableDialog.java:340-355 | In ascending order, two non-empty decimal cells compare by their numeric values. |
| `TableSort.CompareCellsNumeric` | main/logbook/gui/AbstractTableDialog.java:340-356 | For non-empty decimal cells, ascending order is the numeric order of their values and descending order is its reverse. Leading zeros are allowed. |
| `TableSort.NumericExample` | main/logbook/gui/AbstractTableDialog.java:340-355 | Ascending, "1" < "2" < "10", and descending, "10" comes before "2". Plain `compareTo` puts "10" before "2". |
| `TableSort.EmptyCellsLast` | main/logbook/gui/AbstractTableDialog.java:343-351 | In a body in comparator order, every row after a row whose sort cell is empty also has an empty sort cell. |
| `TableSort.InsertionSort` | main/logbook/gui/AbstractTableDialog.java:319 | The sorted body is a permutation of the input, and each neighbouring pair is in non-decreasing `compare` order. |
| `TableSort.SortedPairwise` | main/logbook/gui/AbstractTableDialog.java:319 | In a body in comparator order, every earlier row compares `<= 0` with every later one, not only with its neighbour. |
| `TableSort.ThreeRowsSorted` | main/logbook/gui/AbstractTableDialog.java:339-357 | Three rows with a strictly before b and b strictly before c have exactly one arrangement in comparator order: a, b, c. |
| `TableSort.SortExample` | main/logbook/gui/AbstractTableDialog.java:339-357 | Sorting the rows "10", "2", "1" ascending on column 0 can only give "1", "2", "10". |
| `TableDialog.FindFrom` | main/logbook/gui/AbstractTableDialog.java:284-289 | It returns the first position at or after `from` holding the text, or 0 if the text does not occur there. |
| `TableDialog.ColumnIndex` | main/logbook/gui/AbstractTableDialog.java:283-289 | For a text in the header, it returns the index of its first occurrence. Otherwise it falls back to 0. |
| `TableDialog.HeaderIndex` | main/logbook/gui/AbstractTableDialog.java:283-289 | The lookup loop returns the first index whose header equals the text, or 0 if none does. |
| `TableDialog.TableComparator.constructor` | main/logbook/gui/AbstractTableDialog.java:331-336 | A new comparator is unconfigured, with no setter call yet, column 0 and descending order. |
| `TableDialog.TableComparator.SetIndex` | main/logbook/gui/AbstractTableDialog.java:363-366 | It sets the column, keeps the direction, counts one more setter call, and afterwards `getHasSetConfig()` holds. |
| `TableDialog.TableComparator.SetOrder` | main/logbook/gui/AbstractTableDialog.java:372-375 | It sets the direction, keeps the column, counts one more setter call, and afterwards `getHasSetConfig()` holds. |
| `TableDialog.TableComparator.HasSetConfig` | main/logbook/gui/AbstractTableDialog.java:381-383 | It holds exactly when `setIndex` or `setOrder` has run at least once on this comparator. |
| `TableDialog.AbstractTableDialog.constructor` | main/logbook/gui/AbstractTableDialog.java:42-69 | There is one remembered direction per header column, all false. The comparator is fresh and unconfigured, nothing is marked, and the body is the fetched one. |
| `TableDialog.AbstractTableDialog.SortTableItems` | main/logbook/gui/AbstractTableDialog.java:299-324 | The flag of the clicked column is negated and every other flag is cleared. The comparator is configured with that column and its new flag, and the header marks the column, up for ascending. The body becomes a permutation of itself in comparator order. |
| `TableDialog.AbstractTableDialog.SortTableItemsByColumn` | main/logbook/gui/AbstractTableDialog.java:282-291 | It does the same for the column that the header lookup selects from the clicked label. |
| `TableDialog.AbstractTableDialog.ReloadTable` | main/logbook/gui/AbstractTableDialog.java:156-169 | Once the comparator has been configured, the new body is a permutation of the fetched rows in the last configured order. Before that, it is the fetched rows unchanged. The sort marker is restored. |

## Left out

- `open()`, the shell and menus with their accelerators, and the event loop are widget wiring with no state of the sort core.
- `setRedraw`, `disposeTableBody`, `setTableBody` and the `TableItemCreator` rendering collaborator only show the body. The model keeps the body as a sequence and does not model the widget rows.
- `packTableHeader` only sets column widths from the external `AppConfig` visibility map, so it is not modelled.
- The CSV, clipboard and key-shortcut adapters and `SelectVisibleColumnDialog` are external classes. The inner `SelectVisibleColumnAdapter` only opens that dialog, and `TableReloadAdapter` only calls `reloadTable`.
- The abstract hooks are inputs. `getTableHeader` becomes the constructor's header, and `updateTableBody` becomes the constructor's body and `ReloadTable`'s argument.
- TableSort.LexCompare: gives only the sign of `String.compareTo`, not its exact value (a character difference or a length difference). Callers of the comparator use only the sign.
- TableSort.InsertionSort: is an insertion sort by adjacent swaps, not the JDK's TimSort. Its contract states that neighbouring rows are in order, and `SortedPairwise` extends that to every pair. TimSort's stability is not stated, and neither is its "comparison method violates its general contract" exception. The comparator is proved antisymmetric and transitive on `<= 0` (`CompareCellsAntisymmetric`, `CompareCellsTransitive`), but the rest of `Comparator`'s contract is not stated.
- TableDialog.AbstractTableDialog.ReloadTable: requires every fetched row to have exactly one cell per header column, the contract `updateTableBody` is assumed to keep. Java checks nothing here. `compare` reads only the cell at the configured column, so Java also accepts rows longer than the header, shorter rows that still reach the sort column, and any rows at all before the first sort or when fewer than two rows are sorted. A row that does not reach the sort column and is compared makes Java throw `ArrayIndexOutOfBoundsException`. The model covers none of these inputs.
- TableDialog.AbstractTableDialog.constructor: requires the first fetched body to have exactly one cell per header column, for the same reason. The Java field initialisers and `open()` accept any rows. The requirement carries over to `SortTableItems` and `SortTableItemsByColumn` through the dialog's invariant.
- TableDialog.AbstractTableDialog.SortTableItems: requires the column index to lie within the header. Out of range, Java throws on `orderflgs[index]`.
- TableDialog.AbstractTableDialog.SortTableItemsByColumn: requires a non-empty header. A clicked column exists only then, and with no columns the fallback index 0 would throw on `orderflgs[0]`.
- `TableComparator.getHasSetConfig` stays true once set. The model counts setter calls in a ghost field and states that the flag holds exactly when that count is positive. It does not state as a separate property that the count never decreases between calls.
- Strings are sequences of characters compared by code. The model ignores UTF-16 surrogate pairs.
