/**
 * The parts of the workbook refer to each other by position: a calendar
 * cell names a cell format by index, a highlighting rule names a DXF by
 * index, a tracker formula names a legend cell by sheet, column and row.
 * These lemmas check that each such reference lands where the generators
 * meant it to.
 */
module Consistency {
  import opened Wrappers
  import opened XmlText
  import opened Cells
  import opened CalendarRows
  import opened CalendarLayout
  import opened Gregorian
  import Calendar
  import Styles
  import Tracker
  import Package

  /** The cell formats the calendar cells use: 2 to 5 for the fixed cells, 6 + l for swatch l. */
  lemma ExpectedCellStyle(year: int, month: int, eventRows: nat, r: nat, c: char)
    requires 0 <= month < 12
    ensures var cell := ExpectedCell(year, month, eventRows, r, c);
            cell.Some? ==> 2 <= cell.value.style < 6 + eventRows
  {
    if r >= 3 && IsGridCol(c) {
      var s, d := FirstWeekday(year, month), MonthLength(year, month);
      ColCharIndex(c);
      var w := GridCellAt(s, d, eventRows, r, ColIndex(c) as nat);
      assert w.Some? ==> w.value.style == 3;
    } else if r == 1 && c == 'A' {
      assert MonthHeaderCell(year, month).style == 4;
    } else if r == 1 && c == 'I' {
      assert LegendHeaderCell().style == 5;
    } else if r == 2 && IsGridCol(c) {
      ColCharIndex(c);
      assert WeekdayCell(ColIndex(c) as nat).style == 2;
    } else if 2 <= r <= 1 + eventRows && c == 'I' {
      assert LegendLabelCell(r).style == 3;
    } else if 2 <= r <= 1 + eventRows && c == 'J' {
      assert LegendSwatchCell(r, r - 2).style == 6 + (r - 2);
    }
  }

  /**
   * Every cell of the calendar sheet names a cell format the style table
   * defines (style < 6 + eventRows), and that format's font, fill and border
   * are defined too.
   */
  lemma CalendarStylesDefined(year: int, month: int, eventRows: nat, r: nat, c: char)
    requires 0 <= month < 12
    ensures var cell := Lookup(Layout(year, month, eventRows), r, c);
            var xfs := Styles.StyleXfs(eventRows);
            cell.Some? ==>
              && cell.value.style < |xfs|
              && xfs[cell.value.style].fontId < |Styles.Fonts|
              && xfs[cell.value.style].fillId < |Styles.StyleFills(eventRows)|
              && xfs[cell.value.style].borderId < |Styles.Borders|
  {
    LayoutLookup(year, month, eventRows, r, c);
    ExpectedCellStyle(year, month, eventRows, r, c);
    var cell := Lookup(Layout(year, month, eventRows), r, c);
    if cell.Some? {
      Styles.XfReferencesDefined(eventRows, cell.value.style);
    }
  }

  /**
   * Legend slot l paints one colour twice: its swatch J(2 + l) has cell
   * format 6 + l, whose fill is palette colour l; rule l, which matches the
   * label in I(2 + l), fills through DXF l, which is palette colour l as well.
   * (The rule's own fillColor only matters when it has no DXF, and it has one.)
   */
  lemma LegendColoursAgree(year: int, month: int, eventRows: nat, range: string, l: nat)
    requires 0 <= month < 12 && l < eventRows
    ensures var g := Layout(year, month, eventRows);
            var swatch := Lookup(g, 2 + l, 'J');
            var rule := Calendar.LegendRules(range, eventRows)[l];
            var xfs := Styles.StyleXfs(eventRows);
            && Lookup(g, 2 + l, 'I') == Some(LegendLabelCell(2 + l))
            && rule.formula == "UPPER(A4)=UPPER($I$" + NatToString(2 + l) + ")"
            && swatch.Some? && swatch.value.style < |xfs|
            && xfs[swatch.value.style].fillId < |Styles.StyleFills(eventRows)|
            && Styles.StyleFills(eventRows)[xfs[swatch.value.style].fillId] == Styles.Solid(Styles.SwatchColor(l))
            && rule.dxfId.Some? && rule.dxfId.value < |Styles.StyleDxfs(eventRows)|
            && Styles.StyleDxfs(eventRows)[rule.dxfId.value] == Styles.DxfFill(Styles.SwatchColor(l))
  {
    Calendar.LegendRuleTargets(year, month, eventRows, range, l);
    Styles.LegendSlotStyles(eventRows, l);
  }

  /**
   * Tracker row i + 2 reads Calendar!I(i + 2): the sheet named Calendar is
   * the calendar part, and that cell is legend slot i's label. The count
   * formula counts that label over Calendar columns A..G, and the row's
   * description cell shares the swatch's cell format 6 + i, a defined one.
   */
  lemma TrackerFollowsLegend(year: int, month: int, eventRows: nat, i: nat, c: Package.PartContents)
    requires 0 <= month < 12 && i < eventRows
    ensures Tracker.ReadCellRef(Tracker.LegendRef(i)) == Some(("Calendar", 'I', i + 2))
    ensures Tracker.ReadCountIf(Tracker.CountFormula(i)) == Some(("Calendar!A:G", Tracker.LegendRef(i)))
    ensures Package.SheetsBefore[1].name == "Calendar"
    ensures Package.SheetContent(true, Package.PartList(true, c), Package.SheetsBefore[1]) == Some(c.calendar)
    ensures Lookup(Layout(year, month, eventRows), i + 2, 'I') == Some(LegendLabelCell(i + 2))
    ensures var swatch := Lookup(Layout(year, month, eventRows), i + 2, 'J');
            swatch.Some? && swatch.value.style == 6 + i && 6 + i < |Styles.StyleXfs(eventRows)|
  {
    Tracker.TrackerFormulas(i);
    Package.CalendarSheetResolves(true, c);
    LayoutLegend(year, month, eventRows, i);
  }
}
