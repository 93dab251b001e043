/**
 * getTrackerSheetXML: the optional Tracker worksheet. Row i + 2 repeats
 * legend label i of the Calendar sheet and counts its occurrences there.
 */
module Tracker {
  import opened Wrappers
  import opened XmlText

  /** A single-cell reference `sheet!<col><row>`, written without quotes around the sheet name. */
  function CellRef(sheet: string, col: char, row: nat): string {
    sheet + ("!" + ([col] + NatToString(row)))
  }

  /** legendCellRef: the Calendar sheet's legend label of slot i. */
  function LegendRef(i: nat): string {
    CellRef("Calendar", 'I', i + 2)
  }

  /** countFormula: the number of Calendar cells in columns A..G equal to that label. */
  function CountFormula(i: nat): string {
    "COUNTIF(" + ("Calendar!A:G" + ("," + (LegendRef(i) + ")")))
  }

  const TrackerHeaderRow: string :=
    "<row r=\"1\">\n" +
    "    <c r=\"A1\" t=\"inlineStr\" s=\"1\"><is><t>Legend Value</t></is></c>\n" +
    "    <c r=\"B1\" t=\"inlineStr\" s=\"1\"><is><t>Count</t></is></c>\n" +
    "    <c r=\"C1\" t=\"inlineStr\" s=\"1\"><is><t>Description</t></is></c>\n" +
    "  </row>"

  /** Row i + 2: the label by formula, its count by formula, and a description in cell style 6 + i. */
  function TrackerRowXml(i: nat): string {
    var n := NatToString(i + 2);
    "<row r=\"" + n + "\">\n" +
    "      <c r=\"A" + n + "\" t=\"str\"><f>=" + LegendRef(i) + "</f></c>\n" +
    "      <c r=\"B" + n + "\" t=\"str\"><f>=" + CountFormula(i) + "</f></c>\n" +
    "      <c r=\"C" + n + "\" t=\"inlineStr\" s=\"" + NatToString(6 + i) +
    "\"><is><t>Automatically counted from Calendar sheet</t></is></c>\n" +
    "    </row>"
  }

  /** The rows string after the loop has run for slots 0 .. n - 1. */
  function TrackerRows(n: nat): string {
    if n == 0 then TrackerHeaderRow else TrackerRows(n - 1) + TrackerRowXml(n - 1)
  }

  function TrackerSheetXml(rows: string): string {
    "<?xml version=\"1.0\" encoding=\"UTF-8\"?>\n" +
    "<worksheet xmlns=\"http://schemas.openxmlformats.org/spreadsheetml/2006/main\">\n" +
    "  <cols>\n" +
    "    <col min=\"1\" max=\"1\" width=\"20\"/>\n" +
    "    <col min=\"2\" max=\"2\" width=\"8\"/>\n" +
    "    <col min=\"3\" max=\"3\" width=\"35\"/>\n" +
    "  </cols>\n" +
    "  <sheetData>" + rows + "</sheetData>\n" +
    "</worksheet>"
  }

  /** getTrackerSheetXML: the header row, then one row per legend slot, in slot order. */
  method GetTrackerSheetXml(eventRows: nat) returns (xml: string)
    ensures xml == TrackerSheetXml(TrackerRows(eventRows))
  {
    var rows := TrackerHeaderRow;
    var i := 0;
    while i < eventRows
      invariant 0 <= i <= eventRows && rows == TrackerRows(i)
    {
      rows := rows + TrackerRowXml(i);
      i := i + 1;
    }
    xml := TrackerSheetXml(rows);
  }

  // ---------------------------------------------------------------------
  // Reading the formulas back
  // ---------------------------------------------------------------------

  /** Splits `sheet!<col><digits>` into its sheet, column and row. */
  function ReadCellRef(s: string): Option<(string, char, nat)> {
    var (sheet, rest) := ReadUntil(s, '!');
    var a :- Expect(rest, "!");
    if |a| >= 1 then
      var row :- ReadDecimal(a[1..]);
      Some((sheet, a[0], row))
    else None
  }

  lemma CellRefRoundTrip(sheet: string, col: char, row: nat)
    requires '!' !in sheet
    ensures ReadCellRef(CellRef(sheet, col, row)) == Some((sheet, col, row))
  {
    var tail := [col] + NatToString(row);
    ReadUntilConcat(sheet, "!" + tail, '!');
    ExpectConcat("!", tail);
    assert tail[1..] == NatToString(row);
    ReadDecimalNat(row);
  }

  /** Splits `COUNTIF(<range>,<criterion>)`. */
  function ReadCountIf(s: string): Option<(string, string)> {
    var a :- Expect(s, "COUNTIF(");
    var (range, b) := ReadUntil(a, ',');
    var c :- Expect(b, ",");
    var (criterion, d) := ReadUntil(c, ')');
    if d == ")" then Some((range, criterion)) else None
  }

  /**
   * Tracker row i + 2 names the Calendar sheet's cell I(i + 2), the label of
   * legend slot i, and counts that same cell's value over Calendar columns A..G.
   */
  lemma TrackerFormulas(i: nat)
    ensures ReadCellRef(LegendRef(i)) == Some(("Calendar", 'I', i + 2))
    ensures ReadCountIf(CountFormula(i)) == Some(("Calendar!A:G", LegendRef(i)))
  {
    CellRefRoundTrip("Calendar", 'I', i + 2);
    var r := LegendRef(i);
    assert ',' !in r by {
      assert r == "Calendar" + ("!" + (['I'] + NatToString(i + 2)));
      assert AllDigits(NatToString(i + 2));
    }
    assert ')' !in r by {
      assert r == "Calendar" + ("!" + (['I'] + NatToString(i + 2)));
      assert AllDigits(NatToString(i + 2));
    }
    ExpectConcat("COUNTIF(", "Calendar!A:G" + ("," + (r + ")")));
    ReadUntilConcat("Calendar!A:G", "," + (r + ")"), ',');
    ExpectConcat(",", r + ")");
    ReadUntilConcat(r, ")", ')');
  }
}
