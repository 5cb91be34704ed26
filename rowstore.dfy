/** The table model of MainPanel.java: the rows of the table and the counter
    that numbers them (class RowDataModel, a DefaultTableModel subclass). */
module RowStore {
  import opened Positions

  /** Bounds of Java's 32-bit `int`, the type of the counter. */
  const INT32_MIN: int := -0x8000_0000
  const INT32_MAX: int := 0x7FFF_FFFF

  predicate IsInt32(x: int) {
    INT32_MIN <= x <= INT32_MAX
  }

  /** `number++` on a Java int: one up, wrapping from the largest int to the
      smallest. */
  function NextNumber(n: int): (r: int)
    requires IsInt32(n)
    ensures IsInt32(r)
    ensures n < INT32_MAX ==> r == n + 1 && n < r
  {
    if n == INT32_MAX then INT32_MIN else n + 1
  }

  /** What a caller hands to addRowData: a name and a comment. */
  datatype RowData = RowData(name: string, comment: string)

  /** One row of the table: the "No." cell, the "Name" cell and the "Comment" cell. */
  datatype Row = Row(id: int, name: string, comment: string)

  /** The Java class a column declares for its cells. */
  datatype ColumnClass = IntegerClass | StringClass

  /** A cell value as the model stores it: an Integer or a String. */
  datatype Cell = IntegerCell(value: int) | StringCell(text: string)

  /** The Java class of a cell value. */
  function ClassOf(c: Cell): ColumnClass {
    if c.IntegerCell? then IntegerClass else StringClass
  }

  datatype ColumnContext = ColumnContext(columnName: string, columnClass: ColumnClass, isEditable: bool)

  /** The fixed column metadata of the model. */
  const COLUMN_ARRAY: seq<ColumnContext> := [
    ColumnContext("No.", IntegerClass, false),
    ColumnContext("Name", StringClass, true),
    ColumnContext("Comment", StringClass, true)
  ]

  /** The ids go strictly up along the rows and all stay below the counter:
      every id was handed out once, in row order, and the next add gets a new one. */
  predicate Numbered(rows: seq<Row>, number: int) {
    (forall i, j :: 0 <= i < j < |rows| ==> rows[i].id < rows[j].id) &&
    (forall i :: 0 <= i < |rows| ==> rows[i].id < number)
  }

  /** Appending the row with the current counter as id, when the counter has
      not reached the largest int, keeps the numbering. */
  lemma AppendKeepsNumbered(rows: seq<Row>, number: int, t: RowData)
    requires Numbered(rows, number) && IsInt32(number) && number < INT32_MAX
    ensures Numbered(rows + [Row(number, t.name, t.comment)], NextNumber(number))
  {
  }

  /** Removing any row keeps the numbering: no id is changed and the counter stays. */
  lemma RemoveKeepsNumbered(rows: seq<Row>, number: int, m: nat)
    requires Numbered(rows, number) && m < |rows|
    ensures Numbered(rows[..m] + rows[m + 1..], number)
  {
    var r := rows[..m] + rows[m + 1..];
    forall i, j | 0 <= i < j < |r| ensures r[i].id < r[j].id {
      var i' := if i < m then i else i + 1;
      var j' := if j < m then j else j + 1;
      assert r[i] == rows[i'] && r[j] == rows[j'];
    }
  }

  /** Keeping any rows in their order keeps the numbering: this is what
      deleting several rows does. */
  lemma SelectKeepsNumbered(rows: seq<Row>, number: int, idx: seq<nat>)
    requires Numbered(rows, number) && Increasing(idx) && Below(idx, |rows|)
    ensures Numbered(Select(rows, idx), number)
  {
    var r := Select(rows, idx);
    forall i, j | 0 <= i < j < |r| ensures r[i].id < r[j].id {
      assert r[i] == rows[idx[i]] && r[j] == rows[idx[j]] && idx[i] < idx[j];
    }
    forall i | 0 <= i < |r| ensures r[i].id < number {
      assert r[i] == rows[idx[i]];
    }
  }

  /** The numbering lasts only while the counter is below the largest int:
      from there, two more adds give a row whose id is the smallest int, below
      the id of the row before it. */
  lemma WrapBreaksNumbering(rows: seq<Row>, t: RowData, u: RowData)
    requires Numbered(rows, INT32_MAX)
    ensures var r := rows + [Row(INT32_MAX, t.name, t.comment)] + [Row(NextNumber(INT32_MAX), u.name, u.comment)];
            r[|rows| + 1].id == INT32_MIN && r[|rows| + 1].id < r[|rows|].id &&
            !Numbered(r, NextNumber(NextNumber(INT32_MAX)))
  {
    var rows' := rows + [Row(INT32_MAX, t.name, t.comment)];
    var r := rows' + [Row(NextNumber(INT32_MAX), u.name, u.comment)];
    assert r[|rows|].id == INT32_MAX && r[|rows| + 1].id == INT32_MIN;
  }

  class RowDataModel {
    /** The model's rows in model order (DefaultTableModel's data vector). */
    var rows: seq<Row>
    /** The id the next added row receives. */
    var number: int

    /** The counter and all ids are Java ints. */
    predicate Valid()
      reads this
    {
      IsInt32(number) && forall i :: 0 <= i < |rows| ==> IsInt32(rows[i].id)
    }

    /** A fresh model: no rows, counter at Java's default 0. */
    constructor ()
      ensures Valid() && rows == [] && number == 0
    {
      rows := [];
      number := 0;
    }

    /** addRowData: the row (number, name, comment) goes at the end, then the
        counter moves on. */
    method AddRowData(t: RowData)
      requires Valid()
      modifies this
      ensures Valid()
      ensures rows == old(rows) + [Row(old(number), t.name, t.comment)]
      ensures number == NextNumber(old(number))
      ensures old(number) < INT32_MAX && Numbered(old(rows), old(number)) ==> Numbered(rows, number)
    {
      if number < INT32_MAX && Numbered(rows, number) {
        AppendKeepsNumbered(rows, number, t);
      }
      rows := rows + [Row(number, t.name, t.comment)];
      number := NextNumber(number);
    }

    /** DefaultTableModel.removeRow: the row at model index `row` is taken out;
        the others keep their contents and the counter stays. */
    method RemoveRow(row: nat)
      requires Valid() && row < |rows|
      modifies this
      ensures Valid()
      ensures rows == old(rows)[..row] + old(rows)[row + 1..]
      ensures number == old(number)
      ensures Numbered(old(rows), number) ==> Numbered(rows, number)
    {
      if Numbered(rows, number) {
        RemoveKeepsNumbered(rows, number, row);
      }
      rows := rows[..row] + rows[row + 1..];
    }

    /** getValueAt, inherited from DefaultTableModel: the cell of a row in
        the order addRowData stored it, {number, name, comment}; each value
        is of the class its column declares. */
    function GetValueAt(row: nat, col: nat): (c: Cell)
      reads this
      requires row < |rows| && col < |COLUMN_ARRAY|
      ensures ClassOf(c) == GetColumnClass(col)
      ensures col == 0 ==> c == IntegerCell(rows[row].id)
      ensures col == 1 ==> c == StringCell(rows[row].name)
      ensures col == 2 ==> c == StringCell(rows[row].comment)
    {
      var r := rows[row];
      [IntegerCell(r.id), StringCell(r.name), StringCell(r.comment)][col]
    }

    /** isCellEditable: only the "No." column is read-only; the row does not matter. */
    function IsCellEditable(row: int, col: int): (r: bool)
      requires 0 <= col < |COLUMN_ARRAY|
      ensures r <==> col != 0
    {
      COLUMN_ARRAY[col].isEditable
    }

    /** getColumnClass: the id column holds integers, the other two strings. */
    function GetColumnClass(col: int): (r: ColumnClass)
      requires 0 <= col < |COLUMN_ARRAY|
      ensures r == IntegerClass <==> col == 0
    {
      COLUMN_ARRAY[col].columnClass
    }

    /** getColumnCount: the model always reports three columns. */
    function GetColumnCount(): (n: nat)
      ensures n == 3
    {
      |COLUMN_ARRAY|
    }

    /** getColumnName: the header texts. */
    function GetColumnName(col: int): (r: string)
      requires 0 <= col < |COLUMN_ARRAY|
      ensures col == 0 ==> r == "No."
      ensures col == 1 ==> r == "Name"
      ensures col == 2 ==> r == "Comment"
    {
      COLUMN_ARRAY[col].columnName
    }
  }
}
