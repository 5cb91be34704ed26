/** The table of MainPanel.java as the user sees it: the row model, the row
    sorter's display order and filter, and the selection, together with the
    three actions that change them (search, "add", "delete").

    The sorter's order is abstract: any ordering of the model rows. Which
    rows a pattern matches is decided by the regex engine, passed in as a
    function. */
module Panel {
  import opened Positions
  import opened RowStore

  datatype Option<T> = None | Some(value: T)

  /** The character of one decimal digit. */
  function DigitChar(d: nat): (c: char)
    requires d < 10
    ensures '0' <= c <= '9' && c as int - '0' as int == d
  {
    (d + '0' as int) as char
  }

  /** The decimal digits of n, most significant first, with no leading zero. */
  function Digits(n: nat): (s: string)
    ensures |s| > 0 && forall k :: 0 <= k < |s| ==> '0' <= s[k] <= '9'
    ensures s[0] == '0' <==> n == 0
    ensures n == 0 ==> s == "0"
    decreases n
  {
    if n < 10 then [DigitChar(n)] else Digits(n / 10) + [DigitChar(n % 10)]
  }

  /** The number a string of decimal digits stands for. */
  function DigitsValue(s: string): nat
    requires forall k :: 0 <= k < |s| ==> '0' <= s[k] <= '9'
  {
    if s == [] then 0
    else DigitsValue(s[..|s| - 1]) * 10 + (s[|s| - 1] as int - '0' as int)
  }

  /** Reading the digits back gives the number. */
  lemma {:induction false} DigitsRoundTrip(n: nat)
    ensures DigitsValue(Digits(n)) == n
    decreases n
  {
    if n >= 10 {
      DigitsRoundTrip(n / 10);
      var s := Digits(n);
      assert s[..|s| - 1] == Digits(n / 10);
    }
  }

  /** Integer.toString: the text the sorter's string converter gives the "No."
      cell: a minus sign exactly for negative numbers, then the decimal digits. */
  function IntToString(n: int): (s: string)
    ensures |s| > 0 && (s[0] == '-' <==> n < 0)
    ensures forall k :: (if n < 0 then 1 else 0) <= k < |s| ==> '0' <= s[k] <= '9'
  {
    if n < 0 then "-" + Digits(-n) else Digits(n)
  }

  /** Integer.parseInt on what IntToString produces. */
  function ParseInt(s: string): int
    requires |s| > 0
    requires forall k :: (if s[0] == '-' then 1 else 0) <= k < |s| ==> '0' <= s[k] <= '9'
  {
    if s[0] == '-' then -(DigitsValue(s[1..]) as int) else DigitsValue(s)
  }

  /** The "No." cell's text determines the id: parsing it back gives the id,
      so distinct ids never show the same text. */
  lemma IntToStringRoundTrip(n: int)
    ensures ParseInt(IntToString(n)) == n
  {
    if n < 0 {
      DigitsRoundTrip(-n);
      assert IntToString(n)[1..] == Digits(-n);
    } else {
      DigitsRoundTrip(n);
    }
  }

  /** The string value the filter tests for a cell: Integer.toString for an
      Integer, the text itself for a String. */
  function StringValue(c: Cell): string {
    match c
    case IntegerCell(v) => IntToString(v)
    case StringCell(s) => s
  }

  /** RowFilter.regexFilter with no column indices: a row passes when the
      pattern is found in the string value of the "No.", "Name" or "Comment" cell. */
  predicate RowMatches(find: string -> bool, r: Row) {
    find(IntToString(r.id)) || find(r.name) || find(r.comment)
  }

  /** Every column is tested: model row `row` matches exactly when the
      pattern is found in the string value of one of the model's columns. */
  lemma RowMatchesSomeColumn(find: string -> bool, m: RowDataModel, row: nat)
    requires row < |m.rows|
    ensures RowMatches(find, m.rows[row]) <==>
            exists col :: 0 <= col < m.GetColumnCount() && find(StringValue(m.GetValueAt(row, col)))
  {
    var r := m.rows[row];
    assert StringValue(m.GetValueAt(row, 0)) == IntToString(r.id);
    assert StringValue(m.GetValueAt(row, 1)) == r.name;
    assert StringValue(m.GetValueAt(row, 2)) == r.comment;
  }

  /** No filter installed lets every row through. */
  predicate Accepts(filter: Option<string -> bool>, r: Row) {
    filter.None? || RowMatches(filter.value, r)
  }

  /** The sorter's view: the model indices of `order` whose rows pass the
      filter, in the sorter's order. */
  function FilterOrder(order: seq<nat>, rows: seq<Row>, filter: Option<string -> bool>): (view: seq<nat>)
    requires Below(order, |rows|)
    ensures Below(view, |rows|) && |view| <= |order|
    ensures forall v {:trigger v in view} :: v in view <==> v in order && v < |rows| && Accepts(filter, rows[v])
  {
    if order == [] then []
    else
      assert order == [order[0]] + order[1..];
      (if Accepts(filter, rows[order[0]]) then [order[0]] else []) + FilterOrder(order[1..], rows, filter)
  }

  /** The rows a filter rejects. */
  function Rejected(rows: seq<Row>, filter: Option<string -> bool>): set<nat> {
    set v: nat | v < |rows| && !Accepts(filter, rows[v])
  }

  // ---------------------------------------------------------------------
  // Facts about the view

  lemma {:induction false} FilterOrderDistinct(order: seq<nat>, rows: seq<Row>, filter: Option<string -> bool>)
    requires Below(order, |rows|) && Distinct(order)
    ensures Distinct(FilterOrder(order, rows, filter))
  {
    if order != [] {
      DistinctTail(order);
      FilterOrderDistinct(order[1..], rows, filter);
      if Accepts(filter, rows[order[0]]) {
        DistinctPrepend(order[0], FilterOrder(order[1..], rows, filter));
      }
    }
  }

  /** The view is the sorter's order with exactly the rejected rows left out:
      filtering never reorders rows. */
  lemma {:induction false} FilterOrderIsWithout(order: seq<nat>, rows: seq<Row>, filter: Option<string -> bool>)
    requires Below(order, |rows|)
    ensures FilterOrder(order, rows, filter) == Without(order, Rejected(rows, filter))
  {
    if order != [] {
      FilterOrderIsWithout(order[1..], rows, filter);
      assert order[0] in Rejected(rows, filter) <==> !Accepts(filter, rows[order[0]]);
    }
  }

  /** With no filter the view is the sorter's whole order. */
  lemma FilterOrderNone(order: seq<nat>, rows: seq<Row>)
    requires Below(order, |rows|)
    ensures FilterOrder(order, rows, None) == order
  {
    FilterOrderIsWithout(order, rows, None);
    assert Rejected(rows, None) == {};
    WithoutEmpty(order);
  }

  /** With a pattern installed, the view shows exactly the matching rows. */
  lemma FilterShowsMatches(order: seq<nat>, rows: seq<Row>, find: string -> bool)
    requires IsOrdering(order, |rows|)
    ensures forall v: nat :: v in FilterOrder(order, rows, Some(find)) <==> v < |rows| && RowMatches(find, rows[v])
  {
  }

  lemma FilterOrderConcat(a: seq<nat>, b: seq<nat>, rows: seq<Row>, filter: Option<string -> bool>)
    requires Below(a, |rows|) && Below(b, |rows|)
    ensures Below(a + b, |rows|)
    ensures FilterOrder(a + b, rows, filter) == FilterOrder(a, rows, filter) + FilterOrder(b, rows, filter)
  {
    FilterOrderIsWithout(a + b, rows, filter);
    FilterOrderIsWithout(a, rows, filter);
    FilterOrderIsWithout(b, rows, filter);
    WithoutConcat(a, b, Rejected(rows, filter));
  }

  lemma {:induction false} WithoutConcat(a: seq<nat>, b: seq<nat>, R: set<nat>)
    ensures Without(a + b, R) == Without(a, R) + Without(b, R)
  {
    if a != [] {
      WithoutConcat(a[1..], b, R);
      assert (a + b)[0] == a[0] && (a + b)[1..] == a[1..] + b;
    } else {
      assert a + b == b;
    }
  }

  /** Appending a row to the model does not change how the old rows are shown. */
  lemma {:induction false} FilterOrderExtend(order: seq<nat>, rows: seq<Row>, r: Row, filter: Option<string -> bool>)
    requires Below(order, |rows|)
    ensures Below(order, |rows| + 1)
    ensures FilterOrder(order, rows + [r], filter) == FilterOrder(order, rows, filter)
  {
    if order != [] {
      assert Below(order[1..], |rows|);
      FilterOrderExtend(order[1..], rows, r, filter);
      assert (rows + [r])[order[0]] == rows[order[0]];
    }
  }

  /** A row appended to the model and placed at position `at` of the sorter's
      order shows up in the view (when it passes the filter) between the
      visible rows before `at` and those after it. */
  lemma FilterOrderInsert(order: seq<nat>, rows: seq<Row>, filter: Option<string -> bool>, at: nat, r: Row)
    requires Below(order, |rows|) && at <= |order|
    ensures Below(order[..at] + [|rows|] + order[at..], |rows| + 1)
    ensures Below(order[..at], |rows|) && Below(order[at..], |rows|)
    ensures FilterOrder(order, rows, filter) == FilterOrder(order[..at], rows, filter) + FilterOrder(order[at..], rows, filter)
    ensures FilterOrder(order[..at] + [|rows|] + order[at..], rows + [r], filter)
         == FilterOrder(order[..at], rows, filter) + (if Accepts(filter, r) then [|rows|] else []) + FilterOrder(order[at..], rows, filter)
  {
    var a, b := order[..at], order[at..];
    var n := |rows|;
    assert order == a + b;
    FilterOrderConcat(a, b, rows, filter);
    var rows' := rows + [r];
    FilterOrderExtend(a, rows, r, filter);
    FilterOrderExtend(b, rows, r, filter);
    assert Below([n], n + 1);
    FilterOrderConcat(a, [n], rows', filter);
    FilterOrderConcat(a + [n], b, rows', filter);
    assert rows'[n] == r;
    assert FilterOrder([n], rows', filter) == (if Accepts(filter, r) then [n] else []) by {
      assert [n][1..] == [];
    }
  }

  lemma FilterOrderCons(v: nat, t: seq<nat>, rows: seq<Row>, filter: Option<string -> bool>)
    requires v < |rows| && Below(t, |rows|)
    ensures Below([v] + t, |rows|)
    ensures FilterOrder([v] + t, rows, filter)
         == (if Accepts(filter, rows[v]) then [v] else []) + FilterOrder(t, rows, filter)
  {
    assert ([v] + t)[0] == v && ([v] + t)[1..] == t;
  }

  /** Deleting model row m from the model and from the sorter's order yields
      the old view with m dropped and the indices above it moved down. */
  lemma {:induction false} FilterOrderRenumber(order: seq<nat>, rows: seq<Row>, filter: Option<string -> bool>, m: nat)
    requires Below(order, |rows|) && m < |rows|
    ensures Below(Renumber(order, m), |rows| - 1)
    ensures FilterOrder(Renumber(order, m), RemoveAt(rows, m), filter) == Renumber(FilterOrder(order, rows, filter), m)
  {
    RenumberBelow(order, |rows|, m);
    if order != [] {
      var v, t := order[0], order[1..];
      assert order == [v] + t;
      assert Below(t, |rows|);
      FilterOrderRenumber(t, rows, filter, m);
      if v == m {
        RenumberDeletedHead(t, rows, filter, m);
      } else {
        RenumberKeptHead(v, t, rows, filter, m);
      }
    }
  }

  /** The step of FilterOrderRenumber where the first index is the deleted row. */
  lemma RenumberDeletedHead(t: seq<nat>, rows: seq<Row>, filter: Option<string -> bool>, m: nat)
    requires Below(t, |rows|) && m < |rows|
    requires Below(Renumber(t, m), |rows| - 1)
    requires FilterOrder(Renumber(t, m), RemoveAt(rows, m), filter) == Renumber(FilterOrder(t, rows, filter), m)
    ensures Below(Renumber([m] + t, m), |rows| - 1)
    ensures FilterOrder(Renumber([m] + t, m), RemoveAt(rows, m), filter)
         == Renumber(FilterOrder([m] + t, rows, filter), m)
  {
    RenumberCons(m, t, m);
    assert Renumber([m] + t, m) == Renumber(t, m) by { assert [] + Renumber(t, m) == Renumber(t, m); }
    FilterOrderCons(m, t, rows, filter);
    var ft := FilterOrder(t, rows, filter);
    if Accepts(filter, rows[m]) {
      RenumberCons(m, ft, m);
      assert Renumber([m] + ft, m) == Renumber(ft, m) by { assert [] + Renumber(ft, m) == Renumber(ft, m); }
    } else {
      assert [] + ft == ft;
    }
  }

  /** The step of FilterOrderRenumber where the first index survives. */
  lemma RenumberKeptHead(v: nat, t: seq<nat>, rows: seq<Row>, filter: Option<string -> bool>, m: nat)
    requires v < |rows| && v != m && Below(t, |rows|) && m < |rows|
    requires Below(Renumber(t, m), |rows| - 1)
    requires FilterOrder(Renumber(t, m), RemoveAt(rows, m), filter) == Renumber(FilterOrder(t, rows, filter), m)
    ensures Below(Renumber([v] + t, m), |rows| - 1)
    ensures FilterOrder(Renumber([v] + t, m), RemoveAt(rows, m), filter)
         == Renumber(FilterOrder([v] + t, rows, filter), m)
  {
    var rows' := RemoveAt(rows, m);
    var h := if v > m then v - 1 else v;
    var rt := Renumber(t, m);
    var ft := FilterOrder(t, rows, filter);
    RenumberCons(v, t, m);
    assert Renumber([v] + t, m) == [h] + rt;
    RenumberBelow([v] + t, |rows|, m);
    assert rows'[h] == rows[v];
    FilterOrderCons(h, rt, rows', filter);
    FilterOrderCons(v, t, rows, filter);
    if Accepts(filter, rows[v]) {
      RenumberCons(v, ft, m);
    } else {
      assert [] + ft == ft;
      assert [] + FilterOrder(rt, rows', filter) == FilterOrder(rt, rows', filter);
    }
  }

  /** The table of MainPanel: the JTable over a RowDataModel with its
      auto-created TableRowSorter and its row selection. */
  class MainPanel {
    const model: RowDataModel
    /** The sorter's display order of all model rows (identity until a
        header click sorts; the sort itself is abstract here). */
    var order: seq<nat>
    /** The current row filter: None, or the compiled pattern's "found in this
        cell text" test. */
    var filter: Option<string -> bool>
    /** The selected view rows, ascending (what getSelectedRows returns). */
    var selection: seq<nat>

    predicate Valid()
      reads this, model
    {
      model.Valid() &&
      IsOrdering(order, |model.rows|) &&
      Increasing(selection) &&
      Below(selection, |FilterOrder(order, model.rows, filter)|)
    }

    /** The rows on screen, as model indices, top to bottom: each view row
        shows a distinct model row, and exactly the rows the filter passes are shown. */
    function View(): (view: seq<nat>)
      reads this, model
      requires Valid()
      ensures Distinct(view) && Below(view, |model.rows|)
      ensures forall v: nat {:trigger v in view} :: v in view <==> v < |model.rows| && Accepts(filter, model.rows[v])
    {
      FilterOrderDistinct(order, model.rows, filter);
      FilterOrder(order, model.rows, filter)
    }

    /** convertRowIndexToModel: the model row shown at a view row, which is a
        real row that the filter passes. */
    function ConvertRowIndexToModel(viewRow: nat): (m: nat)
      reads this, model
      requires Valid() && viewRow < |View()|
      ensures m < |model.rows| && m in order && Accepts(filter, model.rows[m])
    {
      var view := View();
      assert view[viewRow] in view;
      view[viewRow]
    }

    /** The model rows the selection shows. */
    ghost function SelectedModelRows(): set<nat>
      reads this, model
      requires Valid()
    {
      Elems(Select(View(), selection))
    }

    /** The MainPanel constructor: seven rows added in order, then an
        unsorted, unfiltered sorter and no selection. */
    constructor ()
      ensures Valid() && fresh(model)
      ensures model.rows == [
        Row(0, "Name 1", "comment..."), Row(1, "Name 2", "Test"), Row(2, "Name d", "ee"),
        Row(3, "Name c", "Test cc"), Row(4, "Name b", "Test bb"), Row(5, "Name a", "ff"),
        Row(6, "Name 0", "Test aa")]
      ensures model.number == 7 && Numbered(model.rows, model.number)
      ensures order == Range(7) && filter.None? && selection == []
    {
      var m := new RowDataModel();
      m.AddRowData(RowData("Name 1", "comment..."));
      m.AddRowData(RowData("Name 2", "Test"));
      m.AddRowData(RowData("Name d", "ee"));
      m.AddRowData(RowData("Name c", "Test cc"));
      m.AddRowData(RowData("Name b", "Test bb"));
      m.AddRowData(RowData("Name a", "ff"));
      m.AddRowData(RowData("Name 0", "Test aa"));
      AppendSeven(m.rows[0], m.rows[1], m.rows[2], m.rows[3], m.rows[4], m.rows[5], m.rows[6]);
      model := m;
      order := Range(7);
      filter := None;
      selection := [];
      RangeOrdering(7);
    }

    /** searchTable, run on every key release in the search field. Empty
        text removes the filter and clears the selection. Otherwise the
        pattern "(?i)" + text is compiled; when that fails (the engine gives
        None, Java's PatternSyntaxException) nothing changes; when it
        succeeds the filter is installed and view row 0 is selected if any
        row is visible. */
    method SearchTable(text: string, regex: string -> Option<string -> bool>)
      requires Valid()
      modifies this
      ensures Valid()
      ensures order == old(order)
      ensures text == [] ==> filter.None? && selection == [] && View() == order
      ensures text != [] && regex("(?i)" + text).None? ==>
                filter == old(filter) && selection == old(selection)
      ensures text != [] && regex("(?i)" + text).Some? ==>
                filter == regex("(?i)" + text) && selection == (if |View()| > 0 then [0] else [])
      ensures text != [] && regex("(?i)" + text).Some? ==>
                forall v: nat {:trigger v in View()} ::
                  v in View() <==> v < |model.rows| && RowMatches(regex("(?i)" + text).value, model.rows[v])
    {
      if text == [] {
        FilterOrderNone(order, model.rows);
        filter := None;
        selection := [];
      } else {
        var compiled := regex("(?i)" + text);
        if compiled.Some? {
          FilterShowsMatches(order, model.rows, compiled.value);
          filter := compiled;
          // the selection of rows that stay visible is kept, then replaced
          selection := [];
          if |View()| > 0 {
            selection := [0];
          }
        }
      }
    }

    /** One removeRow on behalf of the view row p, with the sorter and the
        selection following the model: the model row shown at p disappears
        from the model, the order and the view, higher model indices move
        down, and so do the selected positions above p. */
    method RemoveViewRow(p: nat)
      requires Valid() && p < |View()|
      modifies this, model
      ensures Valid()
      ensures model.rows == RemoveAt(old(model.rows), old(View())[p])
      ensures model.number == old(model.number)
      ensures order == Renumber(old(order), old(View())[p])
      ensures View() == Renumber(old(View()), old(View())[p])
      ensures filter == old(filter)
      ensures selection == Renumber(old(selection), p)
    {
      var m := ConvertRowIndexToModel(p);
      ghost var view0 := View();
      assert m == view0[p];
      ghost var rows1 := RemoveAt(model.rows, m);
      var order1 := Renumber(order, m);
      var sel1 := Renumber(selection, p);
      RenumberOrdering(order, |model.rows|, m);
      FilterOrderRenumber(order, model.rows, filter, m);
      RenumberLength(view0, m);
      RenumberSelection(selection, |view0|, p);
      assert IsOrdering(order1, |rows1|);
      assert FilterOrder(order1, rows1, filter) == Renumber(view0, m);
      assert Increasing(sel1) && Below(sel1, |FilterOrder(order1, rows1, filter)|);
      model.RemoveRow(m);
      assert model.rows == rows1;
      order := order1;
      selection := sel1;
    }

    /** With the original rows rows0, sorter order order0 and view view0, the
        original model rows R are gone: the current rows are the survivors
        of rows0, and mapped back through the survivors the current order
        and view are the original ones without R. */
    ghost predicate Deleted(rows0: seq<Row>, order0: seq<nat>, view0: seq<nat>, R: set<nat>)
      reads this, model
      requires Valid()
    {
      model.rows == Select(rows0, Survivors(|rows0|, R)) &&
      Select(Survivors(|rows0|, R), order) == Without(order0, R) &&
      Select(Survivors(|rows0|, R), View()) == Without(view0, R)
    }

    /** The state of the delete loop before it handles position i of the
        selection sel taken from the original view view0: the rows shown at
        sel[i + 1..] are gone and only sel[..i + 1] is still selected. */
    ghost predicate Deleting(rows0: seq<Row>, order0: seq<nat>, view0: seq<nat>, sel: seq<nat>, i: int)
      reads this, model
    {
      Valid() && Distinct(view0) && Below(view0, |rows0|) &&
      Increasing(sel) && Below(sel, |view0|) && -1 <= i < |sel| &&
      selection == sel[..i + 1] &&
      Deleted(rows0, order0, view0, Elems(Select(view0, sel[i + 1..])))
    }

    /** Before the delete loop nothing is gone and the whole selection stands. */
    lemma DeleteBegins()
      requires Valid()
      ensures Deleting(model.rows, order, View(), selection, |selection| - 1)
    {
      NothingRemoved(model.rows, order);
      NothingRemoved(model.rows, View());
      assert selection[..|selection|] == selection;
      assert Select(View(), selection[|selection|..]) == [];
      assert Elems(Select(View(), selection[|selection|..])) == {};
      assert Deleted(model.rows, order, View(), {});
    }

    /** After the delete loop the rows shown at the whole selection are gone,
        which is as many rows as were selected. */
    lemma DeleteEnds(rows0: seq<Row>, order0: seq<nat>, view0: seq<nat>, sel: seq<nat>)
      requires Deleting(rows0, order0, view0, sel, -1)
      ensures selection == []
      ensures Deleted(rows0, order0, view0, Elems(Select(view0, sel)))
      ensures |model.rows| == |rows0| - |sel|
      ensures Numbered(rows0, model.number) ==> Numbered(model.rows, model.number)
      ensures sel == [] ==> model.rows == rows0 && order == order0
    {
      assert sel[0..] == sel;
      SelectedCount(view0, sel, |rows0|);
      var R := Elems(Select(view0, sel));
      if Numbered(rows0, model.number) {
        SurvivorsIncreasing(|rows0|, R);
        SelectKeepsNumbered(rows0, model.number, Survivors(|rows0|, R));
      }
      if sel == [] {
        assert R == {};
        NothingRemoved(rows0, order);
        WithoutEmpty(order);
        WithoutEmpty(order0);
      }
    }

    /** One pass of the delete loop: the view row sel[i] goes, and with it the
        row the original view showed there; the selection loses its last
        position. */
    method DeleteSelectedAt(ghost rows0: seq<Row>, ghost order0: seq<nat>, ghost view0: seq<nat>,
                            sel: seq<nat>, i: nat)
      requires Deleting(rows0, order0, view0, sel, i)
      modifies this, model
      ensures Deleting(rows0, order0, view0, sel, i - 1)
      ensures model.number == old(model.number) && filter == old(filter)
    {
      var p := sel[i];
      assert selection[i] == p;
      DeleteStep(rows0, order0, view0, sel, i, Elems(Select(view0, sel[i + 1..])), model.rows, order, View());
      RenumberPrefix(sel, i);
      RemoveViewRow(p);
    }

    /** The "delete" menu action: walks the selection from its last entry to
        its first, removing the model row each selected view row shows.
        Exactly the selected rows go; the others keep their contents and
        their relative order in the model, in the sorter's order and on
        screen; the counter and the filter stay; nothing is selected after. */
    method DeleteAction()
      requires Valid()
      modifies this, model
      ensures Valid()
      ensures model.number == old(model.number) && filter == old(filter) && selection == []
      ensures |model.rows| == |old(model.rows)| - |old(selection)|
      ensures Numbered(old(model.rows), model.number) ==> Numbered(model.rows, model.number)
      ensures old(selection) == [] ==> model.rows == old(model.rows) && order == old(order)
      ensures model.rows == Select(old(model.rows), Survivors(|old(model.rows)|, old(SelectedModelRows())))
      ensures Select(Survivors(|old(model.rows)|, old(SelectedModelRows())), order)
           == Without(old(order), old(SelectedModelRows()))
      ensures Select(Survivors(|old(model.rows)|, old(SelectedModelRows())), View())
           == Without(old(View()), old(SelectedModelRows()))
    {
      var sel := selection;
      ghost var rows0, order0, view0 := model.rows, order, View();
      DeleteBegins();
      var i := |sel| - 1;
      while i >= 0
        invariant Deleting(rows0, order0, view0, sel, i)
        invariant model.number == old(model.number) && filter == old(filter)
        decreases i + 1
      {
        DeleteSelectedAt(rows0, order0, view0, sel, i);
        i := i - 1;
      }
      DeleteEnds(rows0, order0, view0, sel);
    }

    /** The "add" menu action: appends ("New row", "") to the model, which
        numbers it with the counter. The sorter puts the new model row at
        position `at` of its order (the end when unsorted); when the row
        passes the filter, the selected positions at or after its view
        position move down by one. */
    method AddAction(at: nat)
      requires Valid() && at <= |order|
      modifies this, model
      ensures Valid()
      ensures model.rows == old(model.rows) + [Row(old(model.number), "New row", "")]
      ensures model.number == NextNumber(old(model.number))
      ensures old(model.number) < INT32_MAX && Numbered(old(model.rows), old(model.number)) ==>
                Numbered(model.rows, model.number)
      ensures order == old(order)[..at] + [|old(model.rows)|] + old(order)[at..]
      ensures filter == old(filter)
      ensures selection == if Accepts(filter, Row(old(model.number), "New row", ""))
                           then InsertShift(old(selection), |FilterOrder(old(order)[..at], old(model.rows), filter)|)
                           else old(selection)
    {
      ghost var view0 := View();
      var n := |model.rows|;
      var newRow := Row(model.number, "New row", "");
      var o: seq<nat> := order[..at] + [n] + order[at..];
      FilterOrderInsert(order, model.rows, filter, at, newRow);
      ghost var view1 := FilterOrder(o, model.rows + [newRow], filter);
      var q := |FilterOrder(order[..at], model.rows, filter)|;
      OrderingInsert(order, n, at);
      var sel := selection;
      if Accepts(filter, newRow) {
        InsertShiftSelection(selection, |view0|, q);
        sel := InsertShift(selection, q);
      }
      assert Increasing(sel) && Below(sel, |view1|);
      model.AddRowData(RowData("New row", ""));
      order := o;
      selection := sel;
    }
  }

  /** One step of the delete action, on values. Before it the rows at the
      selected positions sel[i+1..] of the original view view0 are gone:
      the current rows are the survivors of the original rows rows0, and
      mapped back through the survivors the current order and view are the
      original ones without the deleted rows. Removing the model row shown at
      sel[i] now removes the row the original view showed there, and the
      same holds with sel[i..] deleted. */
  lemma DeleteStep(rows0: seq<Row>, order0: seq<nat>, view0: seq<nat>, sel: seq<nat>, i: nat,
                   R: set<nat>, rows: seq<Row>, order: seq<nat>, view: seq<nat>)
    requires Distinct(view0) && Below(view0, |rows0|)
    requires Increasing(sel) && Below(sel, |view0|) && i < |sel|
    requires R == Elems(Select(view0, sel[i + 1..]))
    requires rows == Select(rows0, Survivors(|rows0|, R))
    requires Below(order, |rows|) && Below(view, |rows|) && sel[i] < |view|
    requires Select(Survivors(|rows0|, R), order) == Without(order0, R)
    requires Select(Survivors(|rows0|, R), view) == Without(view0, R)
    ensures view[sel[i]] < |rows|
    ensures Elems(Select(view0, sel[i..])) == R + {view0[sel[i]]}
    ensures |Survivors(|rows0|, R + {view0[sel[i]]})| == |rows| - 1
    ensures RemoveAt(rows, view[sel[i]]) == Select(rows0, Survivors(|rows0|, R + {view0[sel[i]]}))
    ensures Below(Renumber(order, view[sel[i]]), |rows| - 1)
    ensures Below(Renumber(view, view[sel[i]]), |rows| - 1)
    ensures Select(Survivors(|rows0|, R + {view0[sel[i]]}), Renumber(order, view[sel[i]]))
         == Without(order0, R + {view0[sel[i]]})
    ensures Select(Survivors(|rows0|, R + {view0[sel[i]]}), Renumber(view, view[sel[i]]))
         == Without(view0, R + {view0[sel[i]]})
  {
    var n0 := |rows0|;
    var p := sel[i];
    var surv := Survivors(n0, R);
    // p still shows the row it showed when the selection was taken
    PrefixUntouched(view0, sel, i);
    WithoutKeepsPrefix(view0, R, p + 1);
    assert Without(view0, R)[..p + 1][p] == view0[p];
    var m := view[p];
    var j := view0[p];
    assert surv[m] == j;
    SelectedStep(view0, sel, i);
    SurvivorsIncreasing(n0, R);
    RangeOrdering(n0);
    WithoutOneMore(Range(n0), R, m);
    assert Survivors(n0, R + {j}) == RemoveAt(surv, m);
    SelectRemoveAt(rows0, surv, m);
    RenumberTracks(surv, order, m);
    RenumberTracks(surv, view, m);
    WithoutWithout(order0, R, j);
    WithoutWithout(view0, R, j);
  }

  /** Seven appends to the empty sequence give the sequence of those seven values. */
  lemma AppendSeven<T>(a: T, b: T, c: T, d: T, e: T, f: T, g: T)
    ensures [] + [a] + [b] + [c] + [d] + [e] + [f] + [g] == [a, b, c, d, e, f, g]
  {
  }

  /** Placing the new model index n anywhere in an ordering of n rows gives
      an ordering of n + 1 rows. */
  lemma OrderingInsert(order: seq<nat>, n: nat, at: nat)
    requires IsOrdering(order, n) && at <= |order|
    ensures IsOrdering(order[..at] + [n] + order[at..], n + 1)
  {
    InsertKeepsDistinct(order, n, at);
    InsertCovers(order, n, at);
  }

  /** Inserting a value below none of the entries keeps them distinct and
      within the larger bound. */
  lemma InsertKeepsDistinct(order: seq<nat>, n: nat, at: nat)
    requires Distinct(order) && Below(order, n) && at <= |order|
    ensures Distinct(order[..at] + [n] + order[at..]) && Below(order[..at] + [n] + order[at..], n + 1)
  {
    var o := order[..at] + [n] + order[at..];
    forall i, j | 0 <= i < j < |o| ensures o[i] != o[j] {
      var i' := if i < at then i else i - 1;
      var j' := if j < at then j else j - 1;
      if i != at && j != at {
        assert o[i] == order[i'] && o[j] == order[j'];
      } else if i == at {
        assert o[j] == order[j'];
      } else {
        assert o[i] == order[i'];
      }
    }
  }

  /** Inserting n keeps every value below n present and adds n. */
  lemma InsertCovers(order: seq<nat>, n: nat, at: nat)
    requires (forall v: nat :: v < n ==> v in order) && at <= |order|
    ensures forall v: nat :: v < n + 1 ==> v in order[..at] + [n] + order[at..]
  {
    var o := order[..at] + [n] + order[at..];
    forall v: nat | v < n + 1 ensures v in o {
      if v < n {
        assert v in order;
        var k :| 0 <= k < |order| && order[k] == v;
        if k < at { assert o[k] == v; } else { assert o[k + 1] == v; }
      } else {
        assert o[at] == n;
      }
    }
  }
}
