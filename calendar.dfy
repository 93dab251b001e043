/**
 * buildCalendarSheetWithExcelBuilder: the calendar worksheet of one month.
 * The methods follow the source's loops over a RowTable (rowMap) and an
 * ExcelSheet, and are proved to produce CalendarLayout.Layout and the
 * worksheet markup CalendarSheetXml.
 */
module Calendar {
  import opened Wrappers
  import opened XmlText
  import opened Cells
  import opened Sheets
  import opened Gregorian
  import opened Arith
  import opened CalendarRows
  import opened CalendarLayout

  // ---------------------------------------------------------------------
  // Columns
  // ---------------------------------------------------------------------

  /** Widths of columns 1..10: A..G 13, the H spacer 3, the legend label I 18, the swatch J 7. */
  function ColumnWidth(c: nat): nat {
    if c <= 7 then 13 else if c == 8 then 3 else if c == 9 then 18 else 7
  }

  function CalendarColDefs(): seq<ColDef> {
    seq(10, i requires 0 <= i < 10 => ColDef(i + 1, i + 1, ColumnWidth(i + 1)))
  }

  /** The cols array: one definition per column A..J, in order. */
  method CalendarColumns() returns (cols: seq<ColDef>)
    ensures cols == CalendarColDefs()
    ensures |cols| == 10
    ensures forall i :: 0 <= i < 10 ==> cols[i].min == cols[i].max == i + 1 && cols[i].width == ColumnWidth(i + 1)
  {
    cols := [];
    var c := 1;
    while c <= 7
      invariant 1 <= c <= 8 && |cols| == c - 1
      invariant forall i :: 0 <= i < c - 1 ==> cols[i] == ColDef(i + 1, i + 1, 13)
    {
      cols := cols + [ColDef(c, c, 13)];
      c := c + 1;
    }
    cols := cols + [ColDef(8, 8, 3)];
    cols := cols + [ColDef(9, 9, 18)];
    cols := cols + [ColDef(10, 10, 7)];
  }

  // ---------------------------------------------------------------------
  // The row-placing phases
  // ---------------------------------------------------------------------

  /** The legend loop: label and swatch in rows 2 .. 1 + eventRows. */
  method PlaceLegend(table: RowTable, eventRows: nat)
    requires table.Valid()
    modifies table, table.Rows`cellMap
    ensures table.Valid() && fresh(table.Rows - old(table.Rows))
    ensures table.Cells() == LegendGrid(old(table.Cells()), eventRows)
  {
    ghost var g0 := table.Cells();
    var l := 0;
    while l < eventRows
      invariant 0 <= l <= eventRows
      invariant table.Valid() && fresh(table.Rows - old(table.Rows))
      invariant table.Cells() == LegendGrid(g0, l)
    {
      var r := 1 + 1 + l;
      var row := table.GetRow(r);
      table.AddCell(row, NewCell('I', r, Text("Enter Value Here"), "", 3));
      table.AddCell(row, NewCell('J', r, Text(""), "", 6 + l));
      l := l + 1;
    }
  }

  /** The day-of-week header in row 2. */
  method PlaceWeekdays(table: RowTable)
    requires table.Valid()
    modifies table, table.Rows`cellMap
    ensures table.Valid() && fresh(table.Rows - old(table.Rows))
    ensures table.Cells() == WeekdayGrid(old(table.Cells()))
  {
    ghost var g0 := table.Cells();
    var dowRow := table.GetRow(2);
    var d := 0;
    while d < 7
      invariant 0 <= d <= 7
      invariant table.Valid() && fresh(table.Rows - old(table.Rows))
      invariant 2 in table.rows && table.rows[2] == dowRow
      invariant table.Cells() == WeekdayCells(Touch(g0, 2), d)
    {
      table.AddCell(dowRow, NewCell(ColChar(d), 2, Text(DaysOfWeek[d]), "", 2));
      d := d + 1;
    }
  }

  /**
   * The day loop of week w: fills weekCols and places a date cell under each
   * position holding a day. The week's columns are those of the closed form,
   * and the counter ends where week w + 1 starts.
   */
  method PlaceDays(table: RowTable, weekRow: UniqueExcelRow, currentRow: nat, startDay: nat, daysInMonth: nat,
                   firstWeek: bool, day0: int, ghost w: nat)
    returns (weekCols: seq<Option<int>>, day: int)
    requires table.Valid() && currentRow in table.rows && table.rows[currentRow] == weekRow
    requires startDay < 7 && 1 <= daysInMonth
    requires firstWeek == (w == 0) && day0 == NextDay(startDay, daysInMonth, w)
    modifies table, table.Rows`cellMap
    ensures table.Valid() && table.Rows == old(table.Rows)
    ensures weekCols == ColsOf(startDay, daysInMonth, w)
    ensures day == NextDay(startDay, daysInMonth, w + 1)
    ensures table.Cells() == PutWeekCells(old(table.Cells()), currentRow, weekCols, true)
  {
    ghost var g0 := table.Cells();
    ghost var all := ColsOf(startDay, daysInMonth, w);
    weekCols := [];
    day := day0;
    var dow := 0;
    while dow < 7
      invariant 0 <= dow <= 7
      invariant table.Valid() && table.Rows == old(table.Rows)
      invariant currentRow in table.rows && table.rows[currentRow] == weekRow
      invariant weekCols == all[..dow]
      invariant day == Clamp(daysInMonth, DayAt(startDay, w, dow))
      invariant table.Cells() == PutWeekCells(g0, currentRow, weekCols, true)
    {
      DayStep(startDay, daysInMonth, w, dow);
      PutWeekCellsSnoc(g0, currentRow, weekCols, all[dow], true);
      assert all[..dow + 1] == all[..dow] + [all[dow]];
      if firstWeek && dow < startDay {
        weekCols := weekCols + [None];
      } else if day > daysInMonth {
        weekCols := weekCols + [None];
      } else {
        table.AddCell(weekRow, NewCell(ColChar(dow), currentRow, Number(day), "", 3));
        weekCols := weekCols + [Some(day)];
        day := day + 1;
      }
      dow := dow + 1;
    }
    assert all[..7] == all;
    assert DayAt(startDay, w, 7) == DayAt(startDay, w + 1, 0);
  }

  /** One event row: an empty cell under every day of the week, and the row dropped if it got none. */
  method PlaceEventRow(table: RowTable, currentRow: nat, weekCols: seq<Option<int>>)
    requires table.Valid() && |weekCols| == 7
    modifies table, table.Rows`cellMap
    ensures table.Valid() && fresh(table.Rows - old(table.Rows))
    ensures table.Cells() == EventRowStep(old(table.Cells()), currentRow, weekCols)
  {
    ghost var g0 := table.Cells();
    var eventRow := table.GetRow(currentRow);
    var hasEventCell := false;
    var dow := 0;
    while dow < 7
      invariant 0 <= dow <= 7
      invariant table.Valid() && fresh(table.Rows - old(table.Rows))
      invariant currentRow in table.rows && table.rows[currentRow] == eventRow
      invariant hasEventCell == HasDay(weekCols[..dow])
      invariant table.Cells() == PutWeekCells(Touch(g0, currentRow), currentRow, weekCols[..dow], false)
    {
      PutWeekCellsSnoc(Touch(g0, currentRow), currentRow, weekCols[..dow], weekCols[dow], false);
      HasDaySnoc(weekCols[..dow], weekCols[dow]);
      assert weekCols[..dow + 1] == weekCols[..dow] + [weekCols[dow]];
      if weekCols[dow].Some? {
        table.AddCell(eventRow, NewCell(ColChar(dow), currentRow, Text(""), "", 3));
        hasEventCell := true;
      }
      dow := dow + 1;
    }
    assert weekCols[..7] == weekCols;
    if !hasEventCell {
      table.Delete(currentRow);
    }
  }

  /** One pass of the grid loop: week w's date row, then its event rows. */
  method PlaceWeek(table: RowTable, row0: nat, startDay: nat, daysInMonth: nat, eventRows: nat,
                   firstWeek: bool, day0: int, ghost w: nat)
    returns (currentRow: nat, day: int)
    requires table.Valid() && startDay < 7 && 1 <= daysInMonth
    requires firstWeek == (w == 0) && day0 == NextDay(startDay, daysInMonth, w)
    modifies table, table.Rows`cellMap
    ensures table.Valid() && fresh(table.Rows - old(table.Rows))
    ensures currentRow == row0 + eventRows && day == NextDay(startDay, daysInMonth, w + 1)
    ensures table.Cells() == WeekGrid(old(table.Cells()), row0, ColsOf(startDay, daysInMonth, w), eventRows)
  {
    ghost var g0 := table.Cells();
    currentRow := row0;
    var weekRow := table.GetRow(currentRow);
    var weekCols;
    weekCols, day := PlaceDays(table, weekRow, currentRow, startDay, daysInMonth, firstWeek, day0, w);
    ghost var dated := table.Cells();
    var er := 0;
    while er < eventRows
      invariant 0 <= er <= eventRows
      invariant table.Valid() && fresh(table.Rows - old(table.Rows))
      invariant currentRow == row0 + er
      invariant table.Cells() == EventRows(dated, row0, weekCols, er)
    {
      currentRow := currentRow + 1;
      PlaceEventRow(table, currentRow, weekCols);
      er := er + 1;
    }
  }

  /** The `while (day <= daysInMonth)` loop: one date row and eventRows event rows per week. */
  method PlaceGrid(table: RowTable, startDay: nat, daysInMonth: nat, eventRows: nat)
    requires table.Valid() && startDay < 7 && 1 <= daysInMonth
    modifies table, table.Rows`cellMap
    ensures table.Valid() && fresh(table.Rows - old(table.Rows))
    ensures table.Cells() == GridWeeks(old(table.Cells()), startDay, daysInMonth, eventRows, WeekCount(startDay, daysInMonth))
  {
    ghost var g0 := table.Cells();
    ghost var w: nat := 0;
    var currentRow: nat := 3;
    var day := 1;
    var firstWeek := true;
    while day <= daysInMonth
      invariant table.Valid() && fresh(table.Rows - old(table.Rows))
      invariant w <= WeekCount(startDay, daysInMonth)
      invariant firstWeek == (w == 0) && day == NextDay(startDay, daysInMonth, w)
      invariant currentRow == WeekRow(eventRows, w)
      invariant table.Cells() == GridWeeks(g0, startDay, daysInMonth, eventRows, w)
      decreases WeekCount(startDay, daysInMonth) - w
    {
      NextDayBound(startDay, daysInMonth, w);
      ghost var done := table.Cells();
      currentRow, day := PlaceWeek(table, currentRow, startDay, daysInMonth, eventRows, firstWeek, day, w);
      firstWeek := false;
      currentRow := currentRow + 1;
      assert GridWeeks(g0, startDay, daysInMonth, eventRows, w + 1) ==
             WeekGrid(done, WeekRow(eventRows, w), ColsOf(startDay, daysInMonth, w), eventRows);
      w := w + 1;
    }
    NextDayBound(startDay, daysInMonth, w);
  }

  // ---------------------------------------------------------------------
  // From rowMap to the sheet
  // ---------------------------------------------------------------------

  /** The markup of the rows ks of a grid, in that order. */
  function RowMarkup(g: Grid, ks: seq<nat>): seq<string> {
    if ks == [] then [] else [UniqueRowXml(ks[0], RowCells(g, ks[0]))] + RowMarkup(g, ks[1..])
  }

  lemma {:induction false} RowsXmlOf(rows: seq<UniqueExcelRow>, g: Grid, ks: seq<nat>)
    requires |rows| == |ks|
    requires forall i :: 0 <= i < |ks| ==> ks[i] in g && rows[i].r == ks[i] && rows[i].cellMap == g[ks[i]]
    ensures RowsXml(rows) == RowMarkup(g, ks)
  {
    if rows != [] {
      RowsXmlOf(rows[1..], g, ks[1..]);
    }
  }

  /** `monthRow.cells.forEach(cell => cell.style = 4)`: every cell of the row's list gets style 4. */
  method RestyleCells(row: UniqueExcelRow)
    modifies row`cells
    ensures |row.cells| == |old(row.cells)|
    ensures forall i :: 0 <= i < |row.cells| ==> row.cells[i] == old(row.cells[i]).(style := 4)
  {
    var i := 0;
    while i < |row.cells|
      invariant 0 <= i <= |row.cells| == |old(row.cells)|
      invariant forall j :: 0 <= j < i ==> row.cells[j] == old(row.cells[j]).(style := 4)
      invariant forall j :: i <= j < |row.cells| ==> row.cells[j] == old(row.cells[j])
    {
      row.cells := row.cells[i := row.cells[i].(style := 4)];
      i := i + 1;
    }
  }

  /** The row objects stored under the row numbers ks, in that order. */
  function RowsAt(rows: map<nat, UniqueExcelRow>, ks: seq<nat>): (rs: seq<UniqueExcelRow>)
    requires forall i :: 0 <= i < |ks| ==> ks[i] in rows
    ensures |rs| == |ks| && forall i :: 0 <= i < |ks| ==> rs[i] == rows[ks[i]]
  {
    if ks == [] then [] else RowsAt(rows, ks[..|ks| - 1]) + [rows[ks[|ks| - 1]]]
  }

  /** The `for (const r of allRows)` loop: the rows go to the sheet in the given order. */
  method AddRowsInOrder(sheet: ExcelSheet, table: RowTable, allRows: seq<nat>, monthRow: UniqueExcelRow)
    requires table.Valid() && monthRow.cells == []
    requires forall i :: 0 <= i < |allRows| ==> allRows[i] in table.rows
    modifies sheet`rows, monthRow`cells
    ensures table.Valid() && table.Cells() == old(table.Cells()) && table.rows == old(table.rows)
    ensures sheet.rows == old(sheet.rows) + RowsAt(table.rows, allRows)
    ensures monthRow.cells == []
  {
    var i := 0;
    while i < |allRows|
      invariant 0 <= i <= |allRows|
      invariant table.Valid() && table.Cells() == old(table.Cells()) && table.rows == old(table.rows)
      invariant monthRow.cells == []
      invariant sheet.rows == old(sheet.rows) + RowsAt(table.rows, allRows[..i])
    {
      var r := allRows[i];
      if r == 1 {
        RestyleCells(monthRow);
      }
      sheet.AddRow(table.rows[r]);
      assert allRows[..i + 1][..i] == allRows[..i];
      i := i + 1;
    }
    assert allRows[..i] == allRows;
  }

  // ---------------------------------------------------------------------
  // The highlighting rules
  // ---------------------------------------------------------------------

  const Palette: seq<string> := ["FFFF0000", "FF00FF00", "FF0000FF", "FFFFFF00", "FFFF00FF",
                                 "FF00FFFF", "FFC0C0C0", "FF800000", "FF008000"]

  /** palette[l]; past its nine entries JavaScript yields undefined, which a template prints as "undefined". */
  function PaletteColor(l: nat): string {
    if l < |Palette| then Palette[l] else "undefined"
  }

  /**
   * `Math.max(...rows.filter(r => r >= 3))`. None stands for the -Infinity
   * Math.max returns for an empty list.
   */
  function GridMax(rows: seq<nat>): (m: Option<nat>)
    ensures m.None? <==> forall i :: 0 <= i < |rows| ==> rows[i] < 3
    ensures m.Some? ==> m.value >= 3 && exists i :: 0 <= i < |rows| && rows[i] == m.value
    ensures m.Some? ==> forall i :: 0 <= i < |rows| && rows[i] >= 3 ==> rows[i] <= m.value
  {
    if rows == [] then None
    else
      var init, x := rows[..|rows| - 1], rows[|rows| - 1];
      var rest := GridMax(init);
      assert forall i :: 0 <= i < |init| ==> init[i] == rows[i];
      if x < 3 then rest
      else if rest.Some? && rest.value >= x then rest
      else Some(x)
  }

  /** The range the rules colour, `A4:G<last>`; an empty grid would print -Infinity. */
  function EventRange(last: Option<nat>): string {
    RangeHead + (if last.Some? then NatToString(last.value) else NoMaximum)
  }

  /** The range's first cell and last column. */
  const RangeHead: string := "A4:G"

  /** How a template literal prints the Math.max of no rows. */
  const NoMaximum: string := "-Infinity"

  /** Rule l: case-insensitive match against the legend label in I(2 + l), fill by DXF l, priority l + 1. */
  function LegendRule(range: string, l: nat): CfRule {
    CfRule(range, "UPPER(A4)=UPPER($I$" + NatToString(1 + 1 + l) + ")", PaletteColor(l), l + 1, true, Some(l))
  }

  /** The rules for legend slots 0 .. n - 1, in that order. */
  function LegendRules(range: string, n: nat): (rules: seq<CfRule>)
    ensures |rules| == n
  {
    if n == 0 then [] else LegendRules(range, n - 1) + [LegendRule(range, n - 1)]
  }

  /** The legend rule loop. */
  method AddLegendRules(sheet: ExcelSheet, range: string, eventRows: nat)
    modifies sheet`conditionalFormatting
    ensures sheet.conditionalFormatting == old(sheet.conditionalFormatting) + LegendRules(range, eventRows)
  {
    var l := 0;
    while l < eventRows
      invariant 0 <= l <= eventRows
      invariant sheet.conditionalFormatting == old(sheet.conditionalFormatting) + LegendRules(range, l)
    {
      var legendRow := 1 + 1 + l;
      var formula := "UPPER(A4)=UPPER($I$" + NatToString(legendRow) + ")";
      var rule := CfRule(range, formula, PaletteColor(l), l + 1, true, Some(l));
      sheet.AddConditionalFormatting(rule);
      l := l + 1;
    }
  }

  // ---------------------------------------------------------------------
  // The whole sheet
  // ---------------------------------------------------------------------

  /** The worksheet the builder writes once rowMap holds g. */
  function GridSheetXml(g: Grid, eventRows: nat): string {
    var rows := SortedRows(g.Keys);
    SheetXml(ColsXml(CalendarColDefs()), RowMarkup(g, rows), MergesXml(["A1:G1", "I1:J1"]),
             CfXml(LegendRules(EventRange(GridMax(rows)), eventRows)))
  }

  /** The calendar worksheet of the given month, as the builder writes it. */
  function CalendarSheetXml(year: int, month: int, eventRows: nat): string
    requires 0 <= month < 12
  {
    GridSheetXml(Layout(year, month, eventRows), eventRows)
  }

  /** Row 1: the month title in A1 and the legend heading in I1. */
  method PlaceHeader(table: RowTable, year: int, month: int) returns (monthRow: UniqueExcelRow)
    requires table.Valid() && 0 <= month < 12
    modifies table, table.Rows`cellMap
    ensures table.Valid() && fresh(table.Rows - old(table.Rows))
    ensures 1 in table.rows && table.rows[1] == monthRow && monthRow.cells == []
    ensures table.Cells() == HeaderGrid(old(table.Cells()), year, month)
  {
    monthRow := table.GetRow(1);
    table.AddCell(monthRow, NewCell('A', 1, Text(ToUpper(MonthNames[month]) + " " + IntToString(year)), "", 4));
    table.AddCell(monthRow, NewCell('I', 1, Text("Legend"), "", 5));
  }

  /** Places the header, legend, weekday row and grid in a fresh table. */
  method PlaceAll(year: int, month: int, eventRows: nat) returns (table: RowTable, monthRow: UniqueExcelRow)
    requires 0 <= month < 12
    ensures fresh(table) && fresh(table.Rows) && fresh(monthRow) && table.Valid()
    ensures monthRow.cells == []
    ensures table.Cells() == Layout(year, month, eventRows)
  {
    var daysInMonth := MonthLength(year, month);
    var startDay := FirstWeekday(year, month);
    table := new RowTable();
    monthRow := PlaceHeader(table, year, month);
    assert fresh(table.Rows) && fresh(monthRow);
    PlaceLegend(table, eventRows);
    assert fresh(table.Rows);
    PlaceWeekdays(table);
    assert fresh(table.Rows);
    assert table.Cells() == Top(year, month, eventRows);
    PlaceGrid(table, startDay, daysInMonth, eventRows);
  }

  /** The markup of the table's rows listed by ks, in that order. */
  lemma TableRowsXml(table: RowTable, rows: seq<UniqueExcelRow>, ks: seq<nat>)
    requires table.Valid() && forall i :: 0 <= i < |ks| ==> ks[i] in table.rows
    requires rows == RowsAt(table.rows, ks)
    ensures RowsXml(rows) == RowMarkup(table.Cells(), ks)
  {
    RowsXmlOf(rows, table.Cells(), ks);
  }

  /** The sheet markup from its four parts, once each part is known to be the builder's. */
  lemma GridSheetParts(g: Grid, eventRows: nat, xml: string, colDefs: seq<ColDef>, rowXmls: seq<string>,
                       merges: seq<string>, rules: seq<CfRule>)
    requires colDefs == CalendarColDefs() && merges == ["A1:G1", "I1:J1"]
    requires rowXmls == RowMarkup(g, SortedRows(g.Keys))
    requires rules == LegendRules(EventRange(GridMax(SortedRows(g.Keys))), eventRows)
    requires xml == SheetXml(ColsXml(colDefs), rowXmls, MergesXml(merges), CfXml(rules))
    ensures xml == GridSheetXml(g, eventRows)
  {
  }

  /** allRows and its loop: the table's rows go to the sheet in ascending row order. */
  method AddSortedRows(sheet: ExcelSheet, table: RowTable, monthRow: UniqueExcelRow, ghost g: Grid)
    returns (allRows: seq<nat>)
    requires table.Valid() && g == table.Cells() && sheet.rows == [] && monthRow.cells == []
    modifies sheet`rows, monthRow`cells
    ensures allRows == SortedRows(g.Keys)
    ensures RowsXml(sheet.rows) == RowMarkup(g, allRows)
  {
    assert table.rows.Keys == g.Keys;
    allRows := SortedRows(table.rows.Keys);
    AddRowsInOrder(sheet, table, allRows, monthRow);
    assert sheet.rows == RowsAt(table.rows, allRows);
    TableRowsXml(table, sheet.rows, allRows);
  }

  /**
   * From the merges on: the merges, the rows in ascending order, and one
   * highlighting rule per legend slot over the grid's rows.
   */
  method FillSheet(sheet: ExcelSheet, table: RowTable, monthRow: UniqueExcelRow, eventRows: nat, ghost g: Grid)
    requires table.Valid() && g == table.Cells() && monthRow.cells == []
    requires sheet.merges == [] && sheet.rows == [] && sheet.conditionalFormatting == []
    modifies sheet`merges, sheet`rows, sheet`conditionalFormatting, monthRow`cells
    ensures sheet.merges == ["A1:G1", "I1:J1"]
    ensures RowsXml(sheet.rows) == RowMarkup(g, SortedRows(g.Keys))
    ensures sheet.conditionalFormatting == LegendRules(EventRange(GridMax(SortedRows(g.Keys))), eventRows)
  {
    AddTitleMerges(sheet);
    AddRowsAndRules(sheet, table, monthRow, eventRows, g);
  }

  /** The two title merges: the month name over A..G and the legend header over I..J. */
  method AddTitleMerges(sheet: ExcelSheet)
    requires sheet.merges == []
    modifies sheet`merges
    ensures sheet.merges == ["A1:G1", "I1:J1"]
  {
    sheet.AddMerge("A1:G1");
    sheet.AddMerge("I1:J1");
  }

  /** The rows in ascending order, then one rule per legend slot over the event range. */
  method AddRowsAndRules(sheet: ExcelSheet, table: RowTable, monthRow: UniqueExcelRow, eventRows: nat, ghost g: Grid)
    requires table.Valid() && g == table.Cells() && monthRow.cells == []
    requires sheet.rows == [] && sheet.conditionalFormatting == []
    modifies sheet`rows, sheet`conditionalFormatting, monthRow`cells
    ensures RowsXml(sheet.rows) == RowMarkup(g, SortedRows(g.Keys))
    ensures sheet.conditionalFormatting == LegendRules(EventRange(GridMax(SortedRows(g.Keys))), eventRows)
  {
    var allRows := AddSortedRows(sheet, table, monthRow, g);
    ghost var rows := sheet.rows;
    ghost var markup := RowsXml(rows);
    var range := EventRange(GridMax(allRows));
    AddLegendRules(sheet, range, eventRows);
    assert RowsXml(rows) == markup;
  }

  /** The filled sheet's markup is the builder's worksheet for the table's grid. */
  method FinishSheet(sheet: ExcelSheet, table: RowTable, monthRow: UniqueExcelRow, eventRows: nat, ghost g: Grid)
    returns (xml: string)
    requires table.Valid() && g == table.Cells() && monthRow.cells == []
    requires sheet.cols == CalendarColDefs()
    requires sheet.merges == [] && sheet.rows == [] && sheet.conditionalFormatting == []
    modifies sheet`merges, sheet`rows, sheet`conditionalFormatting, monthRow`cells
    ensures xml == GridSheetXml(g, eventRows)
  {
    FillSheet(sheet, table, monthRow, eventRows, g);
    xml := SheetMarkup(sheet, eventRows, g);
  }

  /** sheet.toXML() once the sheet holds the builder's columns, merges, rows and rules for g. */
  method SheetMarkup(sheet: ExcelSheet, eventRows: nat, ghost g: Grid) returns (xml: string)
    requires sheet.cols == CalendarColDefs() && sheet.merges == ["A1:G1", "I1:J1"]
    requires RowsXml(sheet.rows) == RowMarkup(g, SortedRows(g.Keys))
    requires sheet.conditionalFormatting == LegendRules(EventRange(GridMax(SortedRows(g.Keys))), eventRows)
    ensures xml == GridSheetXml(g, eventRows)
  {
    xml := sheet.ToXml();
    GridSheetParts(g, eventRows, xml, sheet.cols, RowsXml(sheet.rows), sheet.merges, sheet.conditionalFormatting);
  }

  /** buildCalendarSheetWithExcelBuilder, without its console output. */
  method BuildCalendarSheet(year: int, month: int, eventRows: nat) returns (xml: string)
    requires 0 <= month < 12
    ensures xml == CalendarSheetXml(year, month, eventRows)
  {
    var cols := CalendarColumns();
    var sheet := new ExcelSheet("Calendar");
    sheet.SetCols(cols);
    var table, monthRow := PlaceAll(year, month, eventRows);
    ghost var g := table.Cells();
    xml := FinishSheet(sheet, table, monthRow, eventRows, g);
  }

  // ---------------------------------------------------------------------
  // What the worksheet holds
  // ---------------------------------------------------------------------

  /** The worksheet lists rows 1 .. LastRow, each once, in ascending order: no gaps, since empty event rows are never created. */
  lemma CalendarRowOrder(year: int, month: int, eventRows: nat)
    requires 0 <= month < 12
    ensures var rows := SortedRows(Layout(year, month, eventRows).Keys);
            && |rows| == LastRow(FirstWeekday(year, month), MonthLength(year, month), eventRows)
            && forall i :: 0 <= i < |rows| ==> rows[i] == i + 1
  {
    var n := LastRow(FirstWeekday(year, month), MonthLength(year, month), eventRows);
    LayoutKeys(year, month, eventRows, n);
    SortedRowsRange(Layout(year, month, eventRows).Keys, n);
  }

  lemma LayoutKeys(year: int, month: int, eventRows: nat, n: nat)
    requires 0 <= month < 12 && n == LastRow(FirstWeekday(year, month), MonthLength(year, month), eventRows)
    ensures forall k :: k in Layout(year, month, eventRows).Keys <==> 1 <= k <= n
  {
    forall k: nat ensures k in Layout(year, month, eventRows).Keys <==> 1 <= k <= n {
      LayoutRows(year, month, eventRows, k);
    }
  }

  /** Math.max over the rows 1 .. n with n >= 3 is n, so the range ends at row n. */
  lemma RangeOfRows(rows: seq<nat>, n: nat)
    requires |rows| == n && n >= 3
    requires forall i :: 0 <= i < n ==> rows[i] == i + 1
    ensures GridMax(rows) == Some(n)
    ensures EventRange(GridMax(rows)) == RangeHead + NatToString(n)
  {
    assert rows[n - 1] >= 3;
  }

  lemma RangeOfKeys(ks: set<nat>, n: nat)
    requires n >= 3 && forall k :: k in ks <==> 1 <= k <= n
    ensures EventRange(GridMax(SortedRows(ks))) == RangeHead + NatToString(n)
  {
    SortedRowsRange(ks, n);
    RangeOfRows(SortedRows(ks), n);
  }

  /** A month spans at least four weeks, hence at least six rows. */
  lemma LastRowBound(year: int, month: int, eventRows: nat)
    requires 0 <= month < 12
    ensures LastRow(FirstWeekday(year, month), MonthLength(year, month), eventRows) >= 6
  {
    WeekCountRange(year, month);
  }

  /**
   * The highlighted range runs from A4 to column G of the last grid row; it
   * never degenerates to the -Infinity of an empty grid.
   */
  lemma CalendarRange(year: int, month: int, eventRows: nat)
    requires 0 <= month < 12
    ensures EventRange(GridMax(SortedRows(Layout(year, month, eventRows).Keys))) ==
            RangeHead + NatToString(LastRow(FirstWeekday(year, month), MonthLength(year, month), eventRows))
  {
    var n := LastRow(FirstWeekday(year, month), MonthLength(year, month), eventRows);
    LastRowBound(year, month, eventRows);
    LayoutKeys(year, month, eventRows, n);
    RangeOfKeys(Layout(year, month, eventRows).Keys, n);
  }

  lemma {:induction false} LegendRulesAt(range: string, n: nat, l: nat)
    requires l < n
    ensures LegendRules(range, n)[l] == LegendRule(range, l)
  {
    if l < n - 1 {
      LegendRulesAt(range, n - 1, l);
    }
  }

  /** All legend rules share the one range, so the sheet writes them as a single block, in slot order. */
  lemma LegendRulesOneBlock(range: string, n: nat)
    requires n > 0
    ensures GroupBySqref(LegendRules(range, n)) == [CfGroup(range, LegendRules(range, n))]
  {
    forall i | 0 <= i < n ensures LegendRules(range, n)[i].sqref == range {
      LegendRulesAt(range, n, i);
    }
    SameRangeOneBlock(LegendRules(range, n), range);
  }

  /**
   * Rule l compares against legend label I(2 + l), whose swatch J(2 + l)
   * carries cell style 6 + l; it fills through DXF l with palette colour l at
   * priority l + 1, as an expression rule.
   */
  lemma LegendRuleTargets(year: int, month: int, eventRows: nat, range: string, l: nat)
    requires 0 <= month < 12 && l < eventRows
    ensures var rule := LegendRules(range, eventRows)[l];
            && rule.sqref == range
            && rule.formula == "UPPER(A4)=UPPER($I$" + NatToString(2 + l) + ")"
            && rule.dxfId == Some(l) && rule.priority == l + 1 && rule.useExpression
            && rule.fillColor == PaletteColor(l)
    ensures Lookup(Layout(year, month, eventRows), 2 + l, 'I') == Some(NewCell('I', 2 + l, Text("Enter Value Here"), "", 3))
    ensures Lookup(Layout(year, month, eventRows), 2 + l, 'J') == Some(NewCell('J', 2 + l, Text(""), "", 6 + l))
  {
    LegendRulesAt(range, eventRows, l);
    LayoutLegend(year, month, eventRows, l);
  }
}
