# Row table of MainPanel.java, modelled in Dafny

`MainPanel.java` is a Swing panel. It holds a JTable over a `RowDataModel`, has
a search field that filters the table, and has a popup menu with "add",
"delete" and "execute". This project models the part of it that keeps state:

- **`RowStore`** (`rowstore.dfy`): the table model. `RowDataModel` is a class
  with the rows (`seq<Row>`) and the Java `int` counter `number`.
  `addRowData` writes the counter into the "No." cell, appends the row and
  increments the counter. Java's 32-bit wrap-around is written out
  (`NextNumber`). The module also holds the fixed column metadata
  (`COLUMN_ARRAY`), the model's four column queries and `getValueAt`.
- **`Panel`** (`panel.dfy`): the table as the user sees it. `MainPanel` is a
  class with the model, the row sorter's display order, the row filter and
  the selection. What is on screen is the derived view
  `View() = FilterOrder(order, rows, filter)`: the model indices in the
  sorter's order whose rows the filter passes. Its methods model:
  - the constructor with its seven seeded rows;
  - `searchTable`;
  - the "add" action;
  - the "delete" action, with its descending loop of
    `removeRow(convertRowIndexToModel(selection[i]))`.
- **`Positions`** (`positions.dfy`): the index bookkeeping both rely on.
  - `Select` picks elements at given positions.
  - `Without` drops a set of values.
  - `Survivors` gives the original indices left after a deletion.
  - `Renumber` is what removing index `m` does to a sequence of indices.
  - `InsertShift` is what inserting one does.

The sorter's order is abstract: any ordering of the model rows (no sorting
algorithm is modelled). The regex engine is abstract too. `SearchTable`
takes it as a parameter `regex`, which maps a pattern to `None` (Java throws
`PatternSyntaxException`) or to `Some(find)`. `find` is the test "the
pattern is found in this cell text".

The main result is `Panel.MainPanel.DeleteAction`. Let `S` be the set of
model rows the selection showed. It removes exactly the rows in `S`. The
remaining rows keep their contents and their relative order in the model,
in the sorter's order and on screen. This holds for every display order and
every filter. The proof rests on three steps:

1. Walking the selection from last to first leaves every lower view
   position unchanged (`Positions.PrefixUntouched`).
2. So `convertRowIndexToModel(selection[i])` still finds the row that was
   selected there (`Panel.DeleteStep`).
3. Removing that row matches dropping it from the original sequences
   (`Positions.RenumberTracks`, `Positions.WithoutOneMore`).

`RowFilter.regexFilter("(?i)" + text)` with no column indices
(MainPanel.java:78) tests every column. So `Panel.RowMatches` accepts a row
when the pattern is found in:

- the "No." cell rendered as a decimal string, or
- the "Name" cell, or
- the "Comment" cell.

## Model

| member | source | states |
|---|---|---|
| RowStore.NextNumber | MainPanel.java:123 | `number++` on a Java int stays an int; below the largest int it adds one and grows |
| RowStore.AppendKeepsNumbered | MainPanel.java:118-124 | appending a row that takes the current counter as its id keeps the ids strictly increasing and below the counter, while the counter is below the largest int |
| RowStore.WrapBreaksNumbering | MainPanel.java:118-124 | once the counter reaches the largest int, two more adds give a row whose id is the smallest int, below the id of the row before it, so the ids are no longer increasing |
| RowStore.RemoveKeepsNumbered | MainPanel.java:193 | removing any one row keeps the numbering: no id changes and the counter stays |
| RowStore.SelectKeepsNumbered | MainPanel.java:191-194 | keeping any rows in their order keeps the numbering, so deleting several rows never reuses an id |
| RowStore.RowDataModel.constructor | MainPanel.java:112-118 | a new model has no rows and the counter at Java's default 0 |
| RowStore.RowDataModel.AddRowData | MainPanel.java:120-124 | exactly one row `(old number, name, comment)` is appended and every earlier row is unchanged; the counter becomes `number++`; the numbering is kept while the counter is below the largest int |
| RowStore.RowDataModel.RemoveRow | MainPanel.java:193 | the row at the given model index goes, the others keep their contents and order; the counter is unchanged; the numbering is kept |
| RowStore.RowDataModel.GetValueAt | MainPanel.java:121 | the cells of a row come back in the order addRowData stored them: the Integer id, then the name and the comment as Strings, each of the class `getColumnClass` declares for its column |
| RowStore.RowDataModel.IsCellEditable | MainPanel.java:126-128 | a cell is editable exactly when it is not in column 0 ("No."), whatever the row |
| RowStore.RowDataModel.GetColumnClass | MainPanel.java:130-132 | column 0 holds integers, the others strings |
| RowStore.RowDataModel.GetColumnCount | MainPanel.java:134-136 | the model has exactly three columns |
| RowStore.RowDataModel.GetColumnName | MainPanel.java:138-140 | the headers are "No.", "Name", "Comment" |
| Positions.Renumber | MainPanel.java:193 | after the item at index m is removed, an index is present exactly when it was present below m, or one higher at or above m |
| Positions.Survivors | MainPanel.java:191-194 | the original indices left after deleting R: below n, and exactly those not in R |
| Positions.SurvivorsIncreasing | MainPanel.java:191-194 | the indices left after deleting R keep their ascending order |
| Positions.InsertShift | MainPanel.java:182 | shifting for an insertion at q moves every index at or above q up by one and leaves the others as they were |
| Positions.PrefixUntouched | MainPanel.java:192 | while the selected positions after sel[i] are deleted, no view position up to sel[i] shows a deleted row |
| Positions.SelectedStep | MainPanel.java:192 | handling position sel[i] adds exactly the row shown there to the deleted set |
| Positions.SelectedCount | MainPanel.java:191-194 | deleting the rows at n distinct selected view positions leaves exactly n fewer rows |
| Positions.WithoutOneMore | MainPanel.java:193 | deleting the value at position m of a distinct sequence removes exactly position m |
| Positions.RenumberTracks | MainPanel.java:193 | removing current index m and renumbering the other indices agrees with dropping the original row surv[m] from their images |
| Positions.RenumberPrefix | MainPanel.java:192 | removing the last selected position sel[i] from the selection sel[..i+1] leaves sel[..i] |
| Positions.RenumberOrdering | MainPanel.java:193 | after a removal the sorter's order is again an ordering of the remaining rows |
| Positions.RenumberSelection | MainPanel.java:193 | after a removal the selection is still increasing and within the shorter view |
| Positions.InsertShiftRenumber | MainPanel.java:182 | shifting indices for an insertion at q and then removing q gives back the original indices |
| Panel.Digits | MainPanel.java:121 | the decimal digits of a number: never empty, digits only, with a leading `0` exactly for the number 0 |
| Panel.DigitsRoundTrip | MainPanel.java:121 | reading the digits back gives the number |
| Panel.IntToString | MainPanel.java:121 | the text of the Integer "No." cell: a minus sign exactly when the id is negative, then digits only |
| Panel.IntToStringRoundTrip | MainPanel.java:121 | parsing the cell text gives back the id, so rows with different ids never show the same "No." text |
| Panel.RowMatchesSomeColumn | MainPanel.java:78 | with no column indices the filter tests every column: a model row matches exactly when the pattern is found in the string value (`Integer.toString` for the "No." cell) of the cell `getValueAt` gives for one of the model's `getColumnCount()` columns |
| Panel.FilterOrder | MainPanel.java:78 | the view holds exactly the indices of the order that are rows the filter passes, and stays within the rows |
| Panel.FilterOrderDistinct | MainPanel.java:58 | a view over a repetition-free order shows each model row at most once |
| Panel.FilterOrderIsWithout | MainPanel.java:78 | filtering drops exactly the rejected rows and never reorders |
| Panel.FilterOrderNone | MainPanel.java:74 | with no filter the view is the sorter's whole order |
| Panel.FilterShowsMatches | MainPanel.java:78 | with a pattern installed the view shows exactly the rows with a matching cell |
| Panel.FilterOrderInsert | MainPanel.java:182 | a row appended to the model and placed at position `at` of the order shows up, when it passes the filter, between the visible rows before and after `at` |
| Panel.OrderingInsert | MainPanel.java:182 | placing the new model index anywhere in the order gives an ordering of all rows |
| Panel.FilterOrderRenumber | MainPanel.java:193 | removing model row m from the rows and the order gives the old view with m removed and the higher indices moved down |
| Panel.DeleteStep | MainPanel.java:192-193 | one pass of the delete loop removes the row the original view showed at sel[i], and the state then reflects the deletion of sel[i..] |
| Panel.MainPanel.View | MainPanel.java:58 | the view shows no row twice, stays within the rows, and shows exactly the rows the filter passes |
| Panel.MainPanel.ConvertRowIndexToModel | MainPanel.java:193 | a view row maps to a real model row that is in the sorter's order and passes the filter |
| Panel.MainPanel.constructor | MainPanel.java:50-58 | seven rows with ids 0..6 in insertion order, counter 7, ids numbered, unsorted order, no filter, no selection |
| Panel.MainPanel.SearchTable | MainPanel.java:71-88 | empty text: no filter, so every row shows, and no selection; malformed pattern: filter and selection unchanged; valid pattern: the view is exactly the matching rows and view row 0 is selected if any row shows; the order is unchanged |
| Panel.MainPanel.RemoveViewRow | MainPanel.java:193 | removes the model row shown at view row p; the order, the view and the selection follow by `Renumber`; counter and filter unchanged |
| Panel.MainPanel.DeleteBegins | MainPanel.java:191 | before the loop nothing is deleted and the whole selection stands |
| Panel.MainPanel.DeleteSelectedAt | MainPanel.java:192-193 | one pass of the loop keeps the loop's state description, one position further down |
| Panel.MainPanel.DeleteEnds | MainPanel.java:192-194 | after the loop exactly the selected rows are gone, as many rows as were selected; the numbering is kept; an empty selection changes nothing |
| Panel.MainPanel.DeleteAction | MainPanel.java:188-195 | exactly the selected rows are removed; the rest keep their contents and relative order in the model, in the order and on screen; the counter and the filter stay; the numbering is kept; the selection ends empty; an empty selection leaves the rows and the order as they were |
| Panel.MainPanel.AddAction | MainPanel.java:179-185 | appends ("New row", "") with the pre-call counter as id; the counter moves on; the new row enters the order at `at`; visible selected positions at or after it move down |

## Left out

- Rendering and layout are not modelled. This covers the alternating row
  colours (MainPanel.java:22-33), column widths (45-48), scrolling to a cell
  (81-82, 183-184), the popup's enabling of "delete" (211-216), and the
  look-and-feel and frame setup (90-109). None of it changes the table's
  state.
- The "execute" action (MainPanel.java:198-208) is not modelled: it reads
  cells and prints them to standard output.
- test.java is not part of this model. It prints encoded byte lengths
  through JDK charset encoders.
- CSV import or export and launching external processes do not appear in
  MainPanel.java, so the model has none.
- The regex engine is a parameter of `SearchTable`. Java's regex syntax, the
  `(?i)` case folding and the reporting of a `PatternSyntaxException`
  (printStackTrace) are not modelled.
- The sorter's ordering is abstract, and re-sorting by a header click is not
  modelled. `AddAction` takes the position `at` where the sorter places the
  new row; the unsorted sorter places it at the end.
- The key listener (MainPanel.java:37-43) only forwards the field's text to
  `searchTable`, so it is not modelled separately. Keyboard and mouse
  selection by the user are not modelled either: the selection is any
  increasing sequence of view rows.
- Editing cells through the table's editor is not modelled. Only the
  editability flags are.
- RowStore.RowDataModel.GetValueAt: requires valid row and column indices;
  DefaultTableModel throws ArrayIndexOutOfBoundsException for any other.
- RowStore.RowDataModel.IsCellEditable: requires a valid column index;
  Java throws ArrayIndexOutOfBoundsException for any other.
- RowStore.RowDataModel.GetColumnClass: requires a valid column index;
  Java throws ArrayIndexOutOfBoundsException for any other.
- RowStore.RowDataModel.GetColumnName: requires a valid column index;
  Java throws ArrayIndexOutOfBoundsException for any other.
- RowStore.RowDataModel.RemoveRow: requires a valid row index;
  DefaultTableModel throws ArrayIndexOutOfBoundsException for any other.
  The delete action only ever passes valid ones.
- RowStore.RowDataModel.AddRowData: increasing, distinct ids are promised
  only while the counter is below 2147483647. After that the Java int wraps,
  and `RowStore.WrapBreaksNumbering` shows the ids stop increasing.
- Panel.MainPanel.RemoveViewRow: the model assumes how JTable moves the
  selection when a row is removed. The removed view row leaves the
  selection, selected rows before it stay, and selected rows after it move
  up by one (`Renumber`); this is JDK behaviour, not code in MainPanel.java.
- Panel.MainPanel.AddAction: the model assumes how JTable moves the
  selection when a row is inserted. Selected view rows at or after the new
  row's view position move down by one; this is JDK behaviour, not code in
  MainPanel.java.
