/**
 * The calendar worksheet's cell layout, as values. The fold functions
 * (HeaderGrid, LegendGrid, WeekdayGrid, PutWeekCells, WeekGrid, GridWeeks)
 * follow buildCalendarSheetWithExcelBuilder phase by phase, getRow and
 * addCell calls in the source's order; ExpectedCell is the closed form of
 * where every cell ends up, and LayoutLookup / LayoutRows prove that the two
 * agree. The Calendar module's builder is proved to produce Layout.
 */
module CalendarLayout {
  import opened Wrappers
  import opened XmlText
  import opened Cells
  import opened CalendarRows
  import opened Gregorian
  import opened Arith

  const MonthNames: seq<string> := ["January", "February", "March", "April", "May", "June",
                                    "July", "August", "September", "October", "November", "December"]
  const DaysOfWeek: seq<string> := ["SUNDAY", "MONDAY", "TUESDAY", "WEDNESDAY", "THURSDAY", "FRIDAY", "SATURDAY"]

  /** toUpperCase on the ASCII letters the month names use. */
  function UpperChar(c: char): char {
    if 'a' <= c <= 'z' then (c as int - 32) as char else c
  }

  function ToUpper(s: string): (r: string)
    ensures |r| == |s|
    ensures forall i :: 0 <= i < |s| ==> r[i] == UpperChar(s[i])
  {
    if s == [] then [] else [UpperChar(s[0])] + ToUpper(s[1..])
  }

  /** String.fromCharCode(65 + i): 0 is 'A'. */
  function ColChar(i: nat): char
    requires i < 26
  {
    (65 + i) as char
  }

  /** The inverse of ColChar. */
  function ColIndex(c: char): int {
    c as int - 65
  }

  /** The seven calendar columns A..G. */
  predicate IsGridCol(c: char) {
    'A' <= c <= 'G'
  }

  lemma ColCharIndex(c: char)
    requires IsGridCol(c)
    ensures 0 <= ColIndex(c) < 7 && ColChar(ColIndex(c)) == c
  {
  }

  // ---------------------------------------------------------------------
  // The cells the builder creates
  // ---------------------------------------------------------------------

  /** `monthNames[month].toUpperCase() + ' ' + year`. */
  function MonthTitle(year: int, month: int): string
    requires 0 <= month < 12
  {
    ToUpper(MonthNames[month]) + " " + IntToString(year)
  }

  function MonthHeaderCell(year: int, month: int): Cell
    requires 0 <= month < 12
  {
    NewCell('A', 1, Text(MonthTitle(year, month)), "", 4)
  }

  function LegendHeaderCell(): Cell {
    NewCell('I', 1, Text("Legend"), "", 5)
  }

  function LegendLabelCell(r: nat): Cell {
    NewCell('I', r, Text("Enter Value Here"), "", 3)
  }

  /** The colour swatch of legend slot l: style 6 + l picks that slot's fill. */
  function LegendSwatchCell(r: nat, l: nat): Cell {
    NewCell('J', r, Text(""), "", 6 + l)
  }

  function WeekdayCell(d: nat): Cell
    requires d < 7
  {
    NewCell(ColChar(d), 2, Text(DaysOfWeek[d]), "", 2)
  }

  /** A date cell (the day number) or an empty event cell below it, both style 3. */
  function WeekCell(dayRow: bool, dow: nat, r: nat, day: int): Cell
    requires dow < 7
  {
    if dayRow then NewCell(ColChar(dow), r, Number(day), "", 3) else NewCell(ColChar(dow), r, Text(""), "", 3)
  }

  // ---------------------------------------------------------------------
  // The builder's phases, step by step
  // ---------------------------------------------------------------------

  /** Row 1: month title in A1, legend title in I1. */
  function HeaderGrid(g: Grid, year: int, month: int): Grid
    requires 0 <= month < 12
  {
    Put(Put(Touch(g, 1), 1, MonthHeaderCell(year, month)), 1, LegendHeaderCell())
  }

  /** Legend slots l < n: label in I(2 + l), swatch in J(2 + l). */
  function LegendGrid(g: Grid, n: nat): Grid {
    if n == 0 then g
    else
      var h := LegendGrid(g, n - 1);
      var r := 1 + 1 + (n - 1);
      Put(Put(Touch(h, r), r, LegendLabelCell(r)), r, LegendSwatchCell(r, n - 1))
  }

  function WeekdayCells(g: Grid, n: nat): Grid
    requires n <= 7
  {
    if n == 0 then g else Put(WeekdayCells(g, n - 1), 2, WeekdayCell(n - 1))
  }

  /** Row 2: the seven weekday names. */
  function WeekdayGrid(g: Grid): Grid {
    WeekdayCells(Touch(g, 2), 7)
  }

  /** The addCell calls of one row of a week: a cell under every position holding a day. */
  function PutWeekCells(g: Grid, r: nat, cols: seq<Option<int>>, dayRow: bool): Grid
    requires |cols| <= 7
  {
    if cols == [] then g
    else
      var i := |cols| - 1;
      var h := PutWeekCells(g, r, cols[..i], dayRow);
      if cols[i].Some? then Put(h, r, WeekCell(dayRow, i, r, cols[i].value)) else h
  }

  predicate HasDay(cols: seq<Option<int>>) {
    exists i :: 0 <= i < |cols| && cols[i].Some?
  }

  /** One event row: getRow, an event cell under each day, and the delete of a row left without cells. */
  function EventRowStep(g: Grid, r: nat, cols: seq<Option<int>>): Grid
    requires |cols| <= 7
  {
    var h := PutWeekCells(Touch(g, r), r, cols, false);
    if HasDay(cols) then h else h - {r}
  }

  /** The first n event rows below the date row row0. */
  function EventRows(g: Grid, row0: nat, cols: seq<Option<int>>, n: nat): Grid
    requires |cols| <= 7
  {
    if n == 0 then g else EventRowStep(EventRows(g, row0, cols, n - 1), row0 + n, cols)
  }

  /** One week: its date row, then eventRows event rows. */
  function WeekGrid(g: Grid, row0: nat, cols: seq<Option<int>>, eventRows: nat): Grid
    requires |cols| == 7
  {
    EventRows(PutWeekCells(Touch(g, row0), row0, cols, true), row0, cols, eventRows)
  }

  /** The rowMap contents when the builder has placed every cell. */
  function Layout(year: int, month: int, eventRows: nat): Grid
    requires 0 <= month < 12
  {
    var s, d := FirstWeekday(year, month), MonthLength(year, month);
    GridWeeks(Top(year, month, eventRows), s, d, eventRows, WeekCount(s, d))
  }

  /** Rows 1 and 2 and the legend, before the week loop. */
  function Top(year: int, month: int, eventRows: nat): Grid
    requires 0 <= month < 12
  {
    WeekdayGrid(LegendGrid(HeaderGrid(map[], year, month), eventRows))
  }

  // ---------------------------------------------------------------------
  // The closed form
  // ---------------------------------------------------------------------

  /** The day shown in week w, column dow (possibly outside 1..daysInMonth). */
  function DayAt(startDay: int, w: int, dow: int): int {
    7 * w + dow - startDay + 1
  }

  /** Weeks the grid needs: ceil((startDay + daysInMonth) / 7). */
  function WeekCount(startDay: nat, daysInMonth: nat): nat {
    (startDay + daysInMonth + 6) / 7
  }

  /** The last row of the sheet: the row before the date row of the week after the last. */
  function LastRow(startDay: nat, daysInMonth: nat, eventRows: nat): nat {
    WeekRow(eventRows, WeekCount(startDay, daysInMonth)) - 1
  }

  /** The date row of week w: row 3 for the first week, then 1 + eventRows rows further per week. */
  function WeekRow(eventRows: nat, w: nat): (r: nat)
    ensures r >= 3 + w
  {
    if w == 0 then 3 else WeekRow(eventRows, w - 1) + eventRows + 1
  }

  /**
   * The week whose block of 1 + eventRows rows holds row 3 + k, and the
   * row's place in that block (0 for the date row): k divided by
   * 1 + eventRows, and the remainder.
   */
  function WeekOf(eventRows: nat, k: nat): nat {
    if k <= eventRows then 0 else 1 + WeekOf(eventRows, k - eventRows - 1)
  }

  function RowInWeek(eventRows: nat, k: nat): (j: nat)
    ensures j <= eventRows
  {
    if k <= eventRows then k else RowInWeek(eventRows, k - eventRows - 1)
  }

  /**
   * Grid rows from 3 on come in blocks of 1 + eventRows per week: the date
   * row, then the event rows. A column holds a cell exactly when its day is
   * a day of the month.
   */
  function GridCellAt(startDay: int, daysInMonth: int, eventRows: nat, r: nat, dow: nat): Option<Cell>
    requires r >= 3 && dow < 7
  {
    var w := WeekOf(eventRows, r - 3);
    var d := DayAt(startDay, w, dow);
    if 1 <= d <= daysInMonth then Some(WeekCell(RowInWeek(eventRows, r - 3) == 0, dow, r, d)) else None
  }

  /** Rows 1 and 2 and the legend column pair I/J. */
  function TopCell(year: int, month: int, eventRows: nat, r: nat, c: char): Option<Cell>
    requires 0 <= month < 12
  {
    if r == 1 && c == 'A' then Some(MonthHeaderCell(year, month))
    else if r == 1 && c == 'I' then Some(LegendHeaderCell())
    else if r == 2 && IsGridCol(c) then Some(WeekdayCell(ColIndex(c) as nat))
    else if 2 <= r <= 1 + eventRows && c == 'I' then Some(LegendLabelCell(r))
    else if 2 <= r <= 1 + eventRows && c == 'J' then Some(LegendSwatchCell(r, r - 2))
    else None
  }

  /** Where every cell of the calendar sheet ends up. */
  function ExpectedCell(year: int, month: int, eventRows: nat, r: nat, c: char): Option<Cell>
    requires 0 <= month < 12
  {
    if r >= 3 && IsGridCol(c) then
      GridCellAt(FirstWeekday(year, month), MonthLength(year, month), eventRows, r, ColIndex(c) as nat)
    else TopCell(year, month, eventRows, r, c)
  }

  // ---------------------------------------------------------------------
  // Lookup algebra
  // ---------------------------------------------------------------------

  lemma LookupPut(g: Grid, r0: nat, cell: Cell, r: nat, c: char)
    ensures Lookup(Put(g, r0, cell), r, c) == if r == r0 && c == cell.col then Some(cell) else Lookup(g, r, c)
  {
  }

  lemma LookupTouch(g: Grid, r0: nat, r: nat, c: char)
    ensures Lookup(Touch(g, r0), r, c) == Lookup(g, r, c)
  {
  }

  lemma {:induction false} PutWeekCellsLookup(g: Grid, r0: nat, cols: seq<Option<int>>, dayRow: bool, r: nat, c: char)
    requires |cols| <= 7
    ensures Lookup(PutWeekCells(g, r0, cols, dayRow), r, c) ==
            if r == r0 && 0 <= ColIndex(c) < |cols| && cols[ColIndex(c)].Some?
            then Some(WeekCell(dayRow, ColIndex(c) as nat, r0, cols[ColIndex(c)].value))
            else Lookup(g, r, c)
  {
    if cols != [] {
      var i := |cols| - 1;
      var init := cols[..i];
      PutWeekCellsLookup(g, r0, init, dayRow, r, c);
      if cols[i].Some? {
        LookupPut(PutWeekCells(g, r0, init, dayRow), r0, WeekCell(dayRow, i, r0, cols[i].value), r, c);
      }
      if 0 <= ColIndex(c) < i {
        assert init[ColIndex(c)] == cols[ColIndex(c)];
      }
    }
  }

  lemma {:induction false} PutWeekCellsKeys(g: Grid, r0: nat, cols: seq<Option<int>>, dayRow: bool)
    requires |cols| <= 7 && r0 in g
    ensures PutWeekCells(g, r0, cols, dayRow).Keys == g.Keys
  {
    if cols != [] {
      PutWeekCellsKeys(g, r0, cols[..|cols| - 1], dayRow);
    }
  }

  lemma EventRowStepFacts(g: Grid, r0: nat, cols: seq<Option<int>>, r: nat, c: char)
    requires |cols| <= 7 && HasDay(cols)
    ensures Lookup(EventRowStep(g, r0, cols), r, c) ==
            if r == r0 && 0 <= ColIndex(c) < |cols| && cols[ColIndex(c)].Some?
            then Some(WeekCell(false, ColIndex(c) as nat, r0, cols[ColIndex(c)].value))
            else Lookup(g, r, c)
    ensures EventRowStep(g, r0, cols).Keys == g.Keys + {r0}
  {
    PutWeekCellsLookup(Touch(g, r0), r0, cols, false, r, c);
    LookupTouch(g, r0, r, c);
    PutWeekCellsKeys(Touch(g, r0), r0, cols, false);
  }

  lemma {:induction false} EventRowsFacts(g: Grid, row0: nat, cols: seq<Option<int>>, n: nat, r: nat, c: char)
    requires |cols| <= 7 && HasDay(cols)
    ensures Lookup(EventRows(g, row0, cols, n), r, c) ==
            if row0 < r <= row0 + n && 0 <= ColIndex(c) < |cols| && cols[ColIndex(c)].Some?
            then Some(WeekCell(false, ColIndex(c) as nat, r, cols[ColIndex(c)].value))
            else Lookup(g, r, c)
    ensures forall k :: k in EventRows(g, row0, cols, n) <==> k in g || row0 < k <= row0 + n
  {
    if n > 0 {
      EventRowsFacts(g, row0, cols, n - 1, r, c);
      EventRowStepFacts(EventRows(g, row0, cols, n - 1), row0 + n, cols, r, c);
    }
  }

  /** One week adds its date row and its event rows, with cells exactly under the week's days. */
  lemma WeekGridFacts(g: Grid, row0: nat, cols: seq<Option<int>>, eventRows: nat, r: nat, c: char)
    requires |cols| == 7 && HasDay(cols)
    ensures Lookup(WeekGrid(g, row0, cols, eventRows), r, c) ==
            if row0 <= r <= row0 + eventRows && 0 <= ColIndex(c) < 7 && cols[ColIndex(c)].Some?
            then Some(WeekCell(r == row0, ColIndex(c) as nat, r, cols[ColIndex(c)].value))
            else Lookup(g, r, c)
    ensures forall k :: k in WeekGrid(g, row0, cols, eventRows) <==> k in g || row0 <= k <= row0 + eventRows
  {
    var h := PutWeekCells(Touch(g, row0), row0, cols, true);
    PutWeekCellsLookup(Touch(g, row0), row0, cols, true, r, c);
    LookupTouch(g, row0, r, c);
    PutWeekCellsKeys(Touch(g, row0), row0, cols, true);
    EventRowsFacts(h, row0, cols, eventRows, r, c);
  }

  // ---------------------------------------------------------------------
  // The week loop in closed form
  // ---------------------------------------------------------------------

  /** The day counter clamped the way the loop keeps it: never below 1, never past daysInMonth + 1. */
  function Clamp(daysInMonth: int, x: int): int {
    if x < 1 then 1 else if x > daysInMonth + 1 then daysInMonth + 1 else x
  }

  /** weekCols of week w in closed form. */
  function ColsOf(startDay: int, daysInMonth: int, w: int): (cols: seq<Option<int>>)
    ensures |cols| == 7
  {
    seq(7, i => if 1 <= DayAt(startDay, w, i) <= daysInMonth then Some(DayAt(startDay, w, i)) else None)
  }

  /** The day counter when week w starts. */
  function NextDay(startDay: int, daysInMonth: int, w: nat): int {
    Clamp(daysInMonth, DayAt(startDay, w, 0))
  }

  /** Week w's date row is row 3 + w * (1 + eventRows), and the last row 2 + weeks * (1 + eventRows). */
  lemma {:induction false} WeekRowClosedForm(eventRows: nat, w: nat)
    ensures WeekRow(eventRows, w) == 3 + w * (eventRows + 1)
  {
    if w > 0 {
      WeekRowClosedForm(eventRows, w - 1);
      assert w * (eventRows + 1) == (w - 1) * (eventRows + 1) + eventRows + 1;
    }
  }

  /** WeekOf and RowInWeek are the quotient and remainder of k by 1 + eventRows. */
  lemma {:induction false} WeekOfDivides(eventRows: nat, k: nat)
    ensures WeekOf(eventRows, k) == k / (eventRows + 1)
    ensures RowInWeek(eventRows, k) == k % (eventRows + 1)
  {
    WeekOfInverse(eventRows, k);
    WeekRowClosedForm(eventRows, WeekOf(eventRows, k));
    DivModUnique(k, eventRows + 1, WeekOf(eventRows, k), RowInWeek(eventRows, k));
  }

  /** Row 3 + k is row RowInWeek of the block of week WeekOf. */
  lemma {:induction false} WeekOfInverse(eventRows: nat, k: nat)
    ensures WeekRow(eventRows, WeekOf(eventRows, k)) + RowInWeek(eventRows, k) == k + 3
    decreases k
  {
    if k > eventRows {
      WeekOfInverse(eventRows, k - eventRows - 1);
    }
  }

  /** The rows of week w's block belong to week w. */
  lemma {:induction false} WeekOfRow(eventRows: nat, w: nat, j: nat)
    requires j <= eventRows
    ensures WeekOf(eventRows, WeekRow(eventRows, w) - 3 + j) == w
    ensures RowInWeek(eventRows, WeekRow(eventRows, w) - 3 + j) == j
  {
    if w > 0 {
      WeekOfRow(eventRows, w - 1, j);
    }
  }

  /** Rows from week w's date row on belong to week w or a later one. */
  lemma {:induction false} WeekOfAtLeast(eventRows: nat, w: nat, k: nat)
    requires k + 3 >= WeekRow(eventRows, w)
    ensures WeekOf(eventRows, k) >= w
  {
    if w > 0 && k > eventRows {
      WeekOfAtLeast(eventRows, w - 1, k - eventRows - 1);
    }
  }

  /** The grid after its first w weeks. */
  function GridWeeks(g: Grid, startDay: int, daysInMonth: int, eventRows: nat, w: nat): Grid {
    if w == 0 then g
    else WeekGrid(GridWeeks(g, startDay, daysInMonth, eventRows, w - 1), WeekRow(eventRows, w - 1),
                  ColsOf(startDay, daysInMonth, w - 1), eventRows)
  }

  lemma WeekCountBounds(startDay: nat, daysInMonth: nat)
    ensures 7 * WeekCount(startDay, daysInMonth) >= startDay + daysInMonth
    ensures 7 * WeekCount(startDay, daysInMonth) <= startDay + daysInMonth + 6
  {
  }

  /** The loop condition `day <= daysInMonth` holds exactly for the first WeekCount weeks. */
  lemma NextDayBound(startDay: nat, daysInMonth: nat, w: nat)
    requires startDay < 7 && 1 <= daysInMonth && w <= WeekCount(startDay, daysInMonth)
    ensures NextDay(startDay, daysInMonth, w) <= daysInMonth <==> w < WeekCount(startDay, daysInMonth)
  {
    WeekCountBounds(startDay, daysInMonth);
  }

  /** Every week the loop runs holds at least one day of the month. */
  lemma WeekHasDay(startDay: nat, daysInMonth: nat, w: nat)
    requires startDay < 7 && 1 <= daysInMonth && w < WeekCount(startDay, daysInMonth)
    ensures HasDay(ColsOf(startDay, daysInMonth, w))
  {
    WeekCountBounds(startDay, daysInMonth);
    var cols := ColsOf(startDay, daysInMonth, w);
    if w == 0 {
      assert cols[startDay].Some?;
    } else {
      assert cols[0].Some?;
    }
  }

  /** Inside week w's block of rows, the closed form reads week w's columns. */
  lemma GridCellInWeek(startDay: nat, daysInMonth: nat, eventRows: nat, w: nat, r: nat, dow: nat)
    requires dow < 7 && WeekRow(eventRows, w) <= r <= WeekRow(eventRows, w) + eventRows
    ensures GridCellAt(startDay, daysInMonth, eventRows, r, dow) ==
            var cols := ColsOf(startDay, daysInMonth, w);
            if cols[dow].Some? then Some(WeekCell(r == WeekRow(eventRows, w), dow, r, cols[dow].value)) else None
  {
    WeekOfRow(eventRows, w, r - WeekRow(eventRows, w));
  }

  /** No cell in columns A..G below row 2: what the grid may assume of the rows placed before it. */
  ghost predicate NoGridCells(g: Grid) {
    forall r: nat, c :: r >= 3 && IsGridCol(c) ==> Lookup(g, r, c) == None
  }

  /** After w weeks, rows 3 .. WeekRow(w) - 1 hold exactly the closed-form grid cells. */
  lemma {:induction false} GridWeeksFacts(g: Grid, startDay: nat, daysInMonth: nat, eventRows: nat, w: nat, r: nat, c: char)
    requires startDay < 7 && 1 <= daysInMonth && w <= WeekCount(startDay, daysInMonth)
    requires NoGridCells(g)
    ensures Lookup(GridWeeks(g, startDay, daysInMonth, eventRows, w), r, c) ==
            if 3 <= r < WeekRow(eventRows, w) && IsGridCol(c)
            then GridCellAt(startDay, daysInMonth, eventRows, r, ColIndex(c) as nat)
            else Lookup(g, r, c)
    ensures r in GridWeeks(g, startDay, daysInMonth, eventRows, w) <==> r in g || 3 <= r < WeekRow(eventRows, w)
  {
    if w > 0 {
      var prev := GridWeeks(g, startDay, daysInMonth, eventRows, w - 1);
      var row0 := WeekRow(eventRows, w - 1);
      var cols := ColsOf(startDay, daysInMonth, w - 1);
      GridWeeksFacts(g, startDay, daysInMonth, eventRows, w - 1, r, c);
      WeekHasDay(startDay, daysInMonth, w - 1);
      WeekGridFacts(prev, row0, cols, eventRows, r, c);
      if row0 <= r <= row0 + eventRows && IsGridCol(c) {
        ColCharIndex(c);
        GridCellInWeek(startDay, daysInMonth, eventRows, w - 1, r, ColIndex(c) as nat);
      }
    }
  }

  // ---------------------------------------------------------------------
  // The phases before the grid
  // ---------------------------------------------------------------------

  lemma {:induction false} LegendGridFacts(g: Grid, n: nat, r: nat, c: char)
    ensures Lookup(LegendGrid(g, n), r, c) ==
            if 2 <= r <= 1 + n && c == 'I' then Some(LegendLabelCell(r))
            else if 2 <= r <= 1 + n && c == 'J' then Some(LegendSwatchCell(r, r - 2))
            else Lookup(g, r, c)
    ensures r in LegendGrid(g, n) <==> r in g || 2 <= r <= 1 + n
  {
    if n > 0 {
      var h := LegendGrid(g, n - 1);
      var row := 1 + 1 + (n - 1);
      LegendGridFacts(g, n - 1, r, c);
      LookupTouch(h, row, r, c);
      LookupPut(Touch(h, row), row, LegendLabelCell(row), r, c);
      LookupPut(Put(Touch(h, row), row, LegendLabelCell(row)), row, LegendSwatchCell(row, n - 1), r, c);
    }
  }

  lemma {:induction false} WeekdayCellsFacts(g: Grid, n: nat, r: nat, c: char)
    requires n <= 7 && 2 in g
    ensures Lookup(WeekdayCells(g, n), r, c) ==
            if r == 2 && 0 <= ColIndex(c) < n then Some(WeekdayCell(ColIndex(c) as nat)) else Lookup(g, r, c)
    ensures WeekdayCells(g, n).Keys == g.Keys
  {
    if n > 0 {
      WeekdayCellsFacts(g, n - 1, r, c);
      LookupPut(WeekdayCells(g, n - 1), 2, WeekdayCell(n - 1), r, c);
    }
  }

  /** Rows 1 and 2 and the legend: what the grid loop starts from. */
  lemma TopFacts(year: int, month: int, eventRows: nat, r: nat, c: char)
    requires 0 <= month < 12
    ensures Lookup(Top(year, month, eventRows), r, c) ==
            TopCell(year, month, eventRows, r, c)
    ensures r in Top(year, month, eventRows) <==>
            1 <= r <= 2 || 2 <= r <= 1 + eventRows
  {
    var g1 := HeaderGrid(map[], year, month);
    var g2 := LegendGrid(g1, eventRows);
    LookupTouch(map[], 1, r, c);
    LookupPut(Touch(map[], 1), 1, MonthHeaderCell(year, month), r, c);
    LookupPut(Put(Touch(map[], 1), 1, MonthHeaderCell(year, month)), 1, LegendHeaderCell(), r, c);
    LegendGridFacts(g1, eventRows, r, c);
    LookupTouch(g2, 2, r, c);
    WeekdayCellsFacts(Touch(g2, 2), 7, r, c);
    if IsGridCol(c) {
      ColCharIndex(c);
    }
  }

  lemma TopHasNoGridCells(year: int, month: int, eventRows: nat)
    requires 0 <= month < 12
    ensures NoGridCells(Top(year, month, eventRows))
  {
    var g := Top(year, month, eventRows);
    forall r: nat, c | r >= 3 && IsGridCol(c) ensures Lookup(g, r, c) == None {
      TopFacts(year, month, eventRows, r, c);
    }
  }

  // ---------------------------------------------------------------------
  // The layout theorem
  // ---------------------------------------------------------------------

  /** Past the last week every grid position is empty. */
  lemma GridCellPastEnd(startDay: nat, daysInMonth: nat, eventRows: nat, r: nat, dow: nat)
    requires startDay < 7 && dow < 7 && r >= WeekRow(eventRows, WeekCount(startDay, daysInMonth))
    ensures GridCellAt(startDay, daysInMonth, eventRows, r, dow) == None
  {
    WeekCountBounds(startDay, daysInMonth);
    WeekOfAtLeast(eventRows, WeekCount(startDay, daysInMonth), r - 3);
  }

  /** Every cell the builder leaves in rowMap is the one ExpectedCell names, and no other. */
  lemma LayoutLookup(year: int, month: int, eventRows: nat, r: nat, c: char)
    requires 0 <= month < 12
    ensures Lookup(Layout(year, month, eventRows), r, c) == ExpectedCell(year, month, eventRows, r, c)
  {
    var s, d := FirstWeekday(year, month), MonthLength(year, month);
    var top := Top(year, month, eventRows);
    var wc := WeekCount(s, d);
    TopHasNoGridCells(year, month, eventRows);
    GridWeeksFacts(top, s, d, eventRows, wc, r, c);
    TopFacts(year, month, eventRows, r, c);
    if r >= WeekRow(eventRows, wc) && IsGridCol(c) {
      ColCharIndex(c);
      GridCellPastEnd(s, d, eventRows, r, ColIndex(c) as nat);
    }
  }

  /** The rows the sheet gets are exactly 1 .. LastRow, with no gap. */
  lemma LayoutRows(year: int, month: int, eventRows: nat, r: nat)
    requires 0 <= month < 12
    ensures r in Layout(year, month, eventRows) <==>
            1 <= r <= LastRow(FirstWeekday(year, month), MonthLength(year, month), eventRows)
  {
    var s, d := FirstWeekday(year, month), MonthLength(year, month);
    var top := Top(year, month, eventRows);
    var wc := WeekCount(s, d);
    TopHasNoGridCells(year, month, eventRows);
    GridWeeksFacts(top, s, d, eventRows, wc, r, 'A');
    TopFacts(year, month, eventRows, r, 'A');
    WeekCountBounds(s, d);
  }

  // ---------------------------------------------------------------------
  // What the layout promises
  // ---------------------------------------------------------------------

  /** A month of 28..31 days starting on any weekday spans four to six weeks. */
  lemma WeekCountRange(year: int, month: int)
    requires 0 <= month < 12
    ensures 4 <= WeekCount(FirstWeekday(year, month), MonthLength(year, month)) <= 6
  {
  }

  /** Closed form of LayoutDayCell. */
  lemma GridDayCell(startDay: nat, daysInMonth: nat, eventRows: nat, d: int)
    requires startDay < 7 && 1 <= d <= daysInMonth
    ensures var p := startDay + d - 1;
            var r := WeekRow(eventRows, p / 7);
            r >= 3 && GridCellAt(startDay, daysInMonth, eventRows, r, p % 7) == Some(NewCell(ColChar(p % 7), r, Number(d), "", 3))
  {
    var p := startDay + d - 1;
    GridCellInWeek(startDay, daysInMonth, eventRows, p / 7, WeekRow(eventRows, p / 7), p % 7);
  }

  lemma ExpectedDayCell(year: int, month: int, eventRows: nat, d: int, r: nat, c: char)
    requires 0 <= month < 12 && 1 <= d <= MonthLength(year, month)
    requires r == WeekRow(eventRows, (FirstWeekday(year, month) + d - 1) / 7)
    requires c == ColChar((FirstWeekday(year, month) + d - 1) % 7)
    ensures ExpectedCell(year, month, eventRows, r, c) == Some(NewCell(c, r, Number(d), "", 3))
  {
    var s, dm := FirstWeekday(year, month), MonthLength(year, month);
    var p := s + d - 1;
    GridDayCell(s, dm, eventRows, d);
    assert IsGridCol(c) && ColIndex(c) == p % 7;
  }

  /** Day d sits in column (startDay + d - 1) % 7 of the date row of week (startDay + d - 1) / 7. */
  lemma LayoutDayCell(year: int, month: int, eventRows: nat, d: int)
    requires 0 <= month < 12 && 1 <= d <= MonthLength(year, month)
    ensures var p := FirstWeekday(year, month) + d - 1;
            var r := WeekRow(eventRows, p / 7);
            Lookup(Layout(year, month, eventRows), r, ColChar(p % 7)) == Some(NewCell(ColChar(p % 7), r, Number(d), "", 3))
  {
    var p := FirstWeekday(year, month) + d - 1;
    var r, c := WeekRow(eventRows, p / 7), ColChar(p % 7);
    ExpectedDayCell(year, month, eventRows, d, r, c);
    LayoutLookup(year, month, eventRows, r, c);
  }

  /** Closed form of LayoutNumberCells. */
  lemma GridNumberCell(startDay: nat, daysInMonth: nat, eventRows: nat, r: nat, dow: nat, n: int)
    requires startDay < 7 && r >= 3 && dow < 7
    requires GridCellAt(startDay, daysInMonth, eventRows, r, dow).Some?
    requires GridCellAt(startDay, daysInMonth, eventRows, r, dow).value.value == Number(n)
    ensures 1 <= n <= daysInMonth
    ensures var p := startDay + n - 1;
            r == WeekRow(eventRows, p / 7) && dow == p % 7
  {
    var w := WeekOf(eventRows, r - 3);
    WeekOfInverse(eventRows, r - 3);
    DivModUnique(startDay + n - 1, 7, w, dow);
  }

  lemma ExpectedNumberCell(year: int, month: int, eventRows: nat, r: nat, c: char, n: int)
    requires 0 <= month < 12
    requires ExpectedCell(year, month, eventRows, r, c).Some?
    requires ExpectedCell(year, month, eventRows, r, c).value.value == Number(n)
    ensures 1 <= n <= MonthLength(year, month)
    ensures var p := FirstWeekday(year, month) + n - 1;
            r == WeekRow(eventRows, p / 7) && c == ColChar(p % 7)
  {
    assert r >= 3 && IsGridCol(c);
    ColCharIndex(c);
    GridNumberCell(FirstWeekday(year, month), MonthLength(year, month), eventRows, r, ColIndex(c) as nat, n);
  }

  /** Every number cell of the sheet is a day of the month, at the position LayoutDayCell names: no day appears twice. */
  lemma LayoutNumberCells(year: int, month: int, eventRows: nat, r: nat, c: char, n: int)
    requires 0 <= month < 12
    requires Lookup(Layout(year, month, eventRows), r, c).Some?
    requires Lookup(Layout(year, month, eventRows), r, c).value.value == Number(n)
    ensures 1 <= n <= MonthLength(year, month)
    ensures var p := FirstWeekday(year, month) + n - 1;
            r == WeekRow(eventRows, p / 7) && c == ColChar(p % 7)
  {
    LayoutLookup(year, month, eventRows, r, c);
    ExpectedNumberCell(year, month, eventRows, r, c, n);
  }

  /** Closed form of LayoutEventCells. */
  lemma GridEventCell(startDay: nat, daysInMonth: nat, eventRows: nat, w: nat, k: nat, dow: nat)
    requires 1 <= k <= eventRows && dow < 7
    ensures var r0 := WeekRow(eventRows, w);
            var e := GridCellAt(startDay, daysInMonth, eventRows, r0 + k, dow);
            && (e.Some? <==> GridCellAt(startDay, daysInMonth, eventRows, r0, dow).Some?)
            && (e.Some? ==> e == Some(NewCell(ColChar(dow), r0 + k, Text(""), "", 3)))
  {
    var r0 := WeekRow(eventRows, w);
    GridCellInWeek(startDay, daysInMonth, eventRows, w, r0 + k, dow);
    GridCellInWeek(startDay, daysInMonth, eventRows, w, r0, dow);
  }

  lemma ExpectedEventCell(year: int, month: int, eventRows: nat, w: nat, r0: nat, r: nat, c: char)
    requires 0 <= month < 12 && IsGridCol(c)
    requires r0 == WeekRow(eventRows, w) && r0 < r <= r0 + eventRows
    ensures ExpectedCell(year, month, eventRows, r, c).Some? <==> ExpectedCell(year, month, eventRows, r0, c).Some?
    ensures ExpectedCell(year, month, eventRows, r, c).Some? ==>
            ExpectedCell(year, month, eventRows, r, c) == Some(NewCell(c, r, Text(""), "", 3))
  {
    var s, dm := FirstWeekday(year, month), MonthLength(year, month);
    var dow := ColIndex(c) as nat;
    ColCharIndex(c);
    assert ExpectedCell(year, month, eventRows, r, c) == GridCellAt(s, dm, eventRows, r, dow);
    assert ExpectedCell(year, month, eventRows, r0, c) == GridCellAt(s, dm, eventRows, r0, dow);
    GridEventCell(s, dm, eventRows, w, r - r0, dow);
  }

  /**
   * In the event rows r below the date row r0 of a week, a cell exists
   * exactly under the columns holding a day, empty and in style 3.
   */
  lemma LayoutEventCells(year: int, month: int, eventRows: nat, w: nat, r0: nat, r: nat, c: char)
    requires 0 <= month < 12 && IsGridCol(c)
    requires r0 == WeekRow(eventRows, w) && r0 < r <= r0 + eventRows
    ensures Lookup(Layout(year, month, eventRows), r, c).Some? <==> Lookup(Layout(year, month, eventRows), r0, c).Some?
    ensures Lookup(Layout(year, month, eventRows), r, c).Some? ==>
            Lookup(Layout(year, month, eventRows), r, c) == Some(NewCell(c, r, Text(""), "", 3))
  {
    ExpectedEventCell(year, month, eventRows, w, r0, r, c);
    LayoutLookup(year, month, eventRows, r, c);
    LayoutLookup(year, month, eventRows, r0, c);
  }

  /**
   * Row 1 holds the month title in A and the legend title in I and nothing
   * else; row 2 holds the weekday names in A..G; legend slot l holds its
   * label in I(2 + l) and its swatch, style 6 + l, in J(2 + l).
   */
  lemma LayoutTopRows(year: int, month: int, eventRows: nat, c: char)
    requires 0 <= month < 12
    ensures var g := Layout(year, month, eventRows);
            && Lookup(g, 1, c) == (if c == 'A' then Some(MonthHeaderCell(year, month))
                                   else if c == 'I' then Some(LegendHeaderCell()) else None)
            && (IsGridCol(c) ==> Lookup(g, 2, c) == Some(NewCell(c, 2, Text(DaysOfWeek[ColIndex(c)]), "", 2)))
  {
    LayoutLookup(year, month, eventRows, 1, c);
    LayoutLookup(year, month, eventRows, 2, c);
    if IsGridCol(c) {
      ColCharIndex(c);
    }
  }

  lemma LayoutLegend(year: int, month: int, eventRows: nat, l: nat)
    requires 0 <= month < 12 && l < eventRows
    ensures Lookup(Layout(year, month, eventRows), 2 + l, 'I') == Some(NewCell('I', 2 + l, Text("Enter Value Here"), "", 3))
    ensures Lookup(Layout(year, month, eventRows), 2 + l, 'J') == Some(NewCell('J', 2 + l, Text(""), "", 6 + l))
  {
    LayoutLookup(year, month, eventRows, 2 + l, 'I');
    LayoutLookup(year, month, eventRows, 2 + l, 'J');
  }

  // ---------------------------------------------------------------------
  // One iteration of the builder's loops
  // ---------------------------------------------------------------------

  lemma PutWeekCellsSnoc(g: Grid, r: nat, cols: seq<Option<int>>, x: Option<int>, dayRow: bool)
    requires |cols| < 7
    ensures PutWeekCells(g, r, cols + [x], dayRow) ==
            if x.Some? then Put(PutWeekCells(g, r, cols, dayRow), r, WeekCell(dayRow, |cols|, r, x.value))
            else PutWeekCells(g, r, cols, dayRow)
  {
    assert (cols + [x])[..|cols|] == cols;
  }

  lemma HasDaySnoc(cols: seq<Option<int>>, x: Option<int>)
    ensures HasDay(cols + [x]) <==> HasDay(cols) || x.Some?
  {
    if HasDay(cols) {
      var i :| 0 <= i < |cols| && cols[i].Some?;
      assert (cols + [x])[i] == cols[i];
    }
    if x.Some? {
      assert (cols + [x])[|cols|] == x;
    }
    if HasDay(cols + [x]) {
      var i :| 0 <= i < |cols| + 1 && (cols + [x])[i].Some?;
      if i < |cols| {
        assert cols[i] == (cols + [x])[i];
      }
    }
  }

  /**
   * One position of the day loop: the position holds the day counter unless
   * it lies before the first of the month or the month has run out, and the
   * counter moves on exactly when it does.
   */
  lemma DayStep(startDay: nat, daysInMonth: nat, w: nat, dow: nat)
    requires startDay < 7 && 1 <= daysInMonth && dow < 7
    ensures var day := Clamp(daysInMonth, DayAt(startDay, w, dow));
            var placed := !(w == 0 && dow < startDay) && day <= daysInMonth;
            && ColsOf(startDay, daysInMonth, w)[dow] == (if placed then Some(day) else None)
            && Clamp(daysInMonth, DayAt(startDay, w, dow + 1)) == (if placed then day + 1 else day)
  {
  }
}
