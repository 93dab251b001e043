# excel-generator-app: a verified model of the .xlsx writer

`script.js` turns a year, a month, a number of legend slots ("event rows",
1 to 9) and a tracker switch into an Office Open XML workbook and hands the
bytes to the browser. This project models everything between the form
values and those bytes:

- the XML text helpers: `escapeXml`, `ExcelCell.toXML`, `ExcelRow`, the
  calendar's `UniqueExcelRow`, `ExcelSheet.toXML` and
  `ConditionalFormattingRule.toXML` (worksheets and styles follow sections
  18.3 and 18.8 of ECMA-376 Part 1);
- the calendar builder `buildCalendarSheetWithExcelBuilder`. It lays out the
  month header, the legend in columns I/J, the weekday row and a ragged
  grid in which each week takes `1 + eventRows` rows. It then adds the rows
  in ascending order and adds one conditional-formatting rule per legend
  slot;
- `getStylesXML` and `getTrackerSheetXML`, whose tables grow with the
  number of legend slots and which the calendar refers to by position;
- the package parts `getContentTypesXML`, `getRelsXML`, `getWorkbookXML`,
  `getWorkbookRelsXML` and the fixed Instructions sheet, plus the list of
  parts the download handler builds (Open Packaging Conventions, ECMA-376
  Part 2);
- the store-only ZIP writer `stringToBytes`, `toBytesLE` and `createZip`.
  It writes local headers, central-directory headers and the end record
  (sections 4.3.7, 4.3.12 and 4.3.16 of PKWARE's APPNOTE.TXT).

Modules follow the program's parts:

| module | file | holds |
|---|---|---|
| `Wrappers` | `wrappers.dfy` | `Option` |
| `XmlText` | `xml_text.dfy` | escaping, decimal numbers, a small reading kit |
| `Arith` | `arith.dfy` | division facts |
| `Cells` | `cells.dfy` | `ExcelCell` (a datatype), `ExcelRow` and `UniqueExcelRow` (classes) |
| `Sheets` | `sheets.dfy` | `ConditionalFormattingRule` (a datatype), `ExcelSheet` (a class) |
| `Gregorian` | `gregorian.dfy` | days in a month and weekday of the 1st, replacing the host `Date` |
| `CalendarRows` | `calendar_rows.dfy` | the `rowMap` with `getRow` (class `RowTable`), sorted row keys |
| `CalendarLayout` | `calendar_layout.dfy` | the layout as a function, and what every cell of it is |
| `Calendar` | `calendar.dfy` | the builder as methods, proved equal to the layout |
| `Styles` | `styles.dfy` | `getStylesXML` |
| `Tracker` | `tracker.dfy` | `getTrackerSheetXML` |
| `Zip` | `zip.dfy` | the ZIP writer and a reader that takes its output apart |
| `Package` | `package.dfy` | manifest parts, part list, package consistency |
| `Consistency` | `consistency.dfy` | cross-part references: style indexes, DXF indexes, tracker formulas |

State is modelled the way the source keeps it:

- Objects whose fields the source updates are classes: `ExcelRow`,
  `UniqueExcelRow`, `ExcelSheet`, and the row table behind `getRow`.
- Loops that accumulate stay loops, each proved equal to a function:
  - the builder's legend, weekday, grid and row-adding loops;
  - the style loops;
  - the tracker loop;
  - `toBytesLE`;
  - the `createZip` `forEach`.
- Values are datatypes: cells, rules, style entries and part entries.
- Template strings are functions.

## Model

| member | source | states |
|---|---|---|
| XmlText.EscapeXml | script.js:8-21 | the result holds no `<`, `>`, `"` or `'`, and is no shorter than the input |
| XmlText.EscapeXmlPlain | script.js:12-20 | a string with none of the five reserved characters is unchanged |
| XmlText.EscapeXmlConcat | script.js:12-20 | escaping works character by character: it distributes over concatenation, so unreserved characters keep their order |
| XmlText.EscapeXmlAmpersands | script.js:12-20 | every `&` in the output starts one of the five entities |
| XmlText.EscapeXmlRoundTrip | script.js:8-21 | decoding the five entities gives back the input |
| XmlText.NatToStringRoundTrip | script.js:33 | the decimal text of a number (as a template literal prints it) parses back to the number |
| XmlText.NatToStringInjective | script.js:33 | different numbers print differently |
| Cells.NewCell | script.js:24-31 | the constructor keeps column, row, value and style; an empty type becomes "inlineStr" and any other type is kept |
| Cells.CellXmlRoundTrip | script.js:35-53 | reading the markup back gives the reference `{col}{row}`; `s` exactly when the style is not 0; for a non-empty value, `t="n"` with a raw `<v>`, or `t="{type}"` with an escaped inline string; for an empty, null or undefined value, no value node, and `t` only when the type is not "inlineStr" |
| Cells.ReadCellTailOf | script.js:36-53 | the attributes after the reference, the value node and the closing tag read back as the cell's view |
| Cells.ExcelRow.constructor | script.js:58-61 | a new row has its number and no cells |
| Cells.ExcelRow.AddCell | script.js:62-64 | the cell is appended; earlier cells are kept, same column or not |
| Cells.ExcelRowAppendOrder | script.js:65-67 | an appended cell's markup comes last in the row's markup |
| Cells.UniqueExcelRow.constructor | script.js:350-353 | a new unique row has its number, an empty `cells` array and an empty cell map |
| Cells.UniqueExcelRow.AddCell | script.js:354-356 | the map entry for the cell's column is overwritten, nothing else changes, and every cell stays keyed by its own column |
| Cells.AddCellsLastWins | script.js:354-356 | after a sequence of additions, a column holds the last cell added to it, or its earlier entry if none was added |
| Cells.AddCellsKeyed | script.js:354-356 | additions keep every cell under its own column, so there is at most one cell per column |
| Cells.SortedColumns | script.js:357-359 | the column letters in strictly ascending `colToIndex` order, each exactly once |
| Cells.OrderedCellsSpec | script.js:357-360 | a unique row serialises each of its cells once, in strictly ascending column order, whatever order they were added in |
| Sheets.RuleXmlRoundTrip | script.js:127-145 | reading a rule back gives `expression` or `cellIs`, its priority and formula, and a `dxfId` exactly when the DXF index is not null (0 included); with no DXF index it gives the inline fill colour instead |
| Sheets.ReadRuleTailOf | script.js:132-143 | the `dxfId` attribute, the escaped formula and the inline `<dxf>` read back as the rule's DXF index, formula and inline fill |
| Sheets.GroupBySqrefSpec | script.js:93-103 | the grouping has one block per distinct `sqref`, covers every rule's range, holds each range's rules in registration order, and lists blocks in first-seen order |
| Sheets.SameRangeOneBlock | script.js:93-103 | rules that all share one range form a single block holding them all in order |
| Sheets.MergesRoundTrip | script.js:91 | the merge block is omitted exactly when there are no merges; otherwise its `count` is the number of merges and it lists them in order |
| Sheets.ExcelSheet.constructor | script.js:71-77 | a new sheet has its name and empty rows, merges, columns and rules |
| Sheets.ExcelSheet.AddRow | script.js:78-80 | the row is appended |
| Sheets.ExcelSheet.AddMerge | script.js:81-83 | the range is appended |
| Sheets.ExcelSheet.SetCols | script.js:84-86 | the column definitions are replaced |
| Sheets.ExcelSheet.AddConditionalFormatting | script.js:86-88 | the rule is appended |
| Gregorian.JsYear | script.js:323-324 | `new Date` reads years 0..99 as 1900..1999, and leaves other years alone |
| Gregorian.DaysInMonth | script.js:323 | every month has 28 to 31 days, and February has 29 exactly in leap years |
| Gregorian.YearLength | script.js:323-324 | a year is 366 days long in leap years and 365 otherwise, and day numbers run on across years |
| Gregorian.NextMonthWeekday | script.js:324 | the next month starts as many weekdays later as this month has days |
| Gregorian.NextYearWeekday | script.js:324 | January starts as many weekdays after December's first day as December has days |
| Gregorian.DecemberLength | script.js:323 | `new Date(year, 12, 0)` rolls over to December 31 |
| Gregorian.February2024 | script.js:323-324 | February 2024 has 29 days and starts on a Thursday (`startDay` 4) |
| CalendarRows.RowTable.constructor | script.js:364 | the row map starts empty |
| CalendarRows.RowTable.GetRow | script.js:365-368 | `getRow` returns the row stored under r, creating an empty one if there is none; the layout's cells are unchanged apart from row r existing; every stored row's inherited `cells` array stays empty |
| CalendarRows.RowTable.AddCell | script.js:354-356 | adding a cell to a table row changes only that row's map (never its `cells` array) and puts the cell in the layout at its row and column |
| CalendarRows.RowTable.Delete | script.js:431 | `rowMap.delete` removes that row and nothing else |
| CalendarRows.SortedRows | script.js:436 | the row keys in strictly ascending order, each exactly once |
| CalendarRows.SortedRowsRange | script.js:436 | when the keys are exactly 1..n, the sorted keys are 1, 2, ..., n |
| CalendarLayout.ToUpper | script.js:376 | upper-casing keeps the length and maps each character |
| CalendarLayout.WeekRowClosedForm | script.js:399-434 | week w's day row is `3 + w(1 + eventRows)` |
| CalendarLayout.WeekOfDivides | script.js:399-434 | grid row 3 + k lies in week `k / (1 + eventRows)`, at position `k % (1 + eventRows)` within the week |
| CalendarLayout.WeekCountBounds | script.js:402-434 | the loop runs for the smallest number of weeks that holds the leading blanks and all the days |
| CalendarLayout.WeekHasDay | script.js:402-434 | every week the loop runs has at least one real day, so no event row it writes is deleted |
| CalendarLayout.DayStep | script.js:405-417 | one step of the day loop: a column before `startDay` in the first week, or past the month's end, is blank; otherwise it holds the current day, and `day` goes up by one |
| CalendarLayout.GridWeeksFacts | script.js:402-434 | after w weeks, the grid's cells are exactly those of the finished weeks, and its rows are rows 3 up to week w's first row |
| CalendarLayout.LegendGridFacts | script.js:384-389 | legend slot l puts "Enter Value Here" in I(2 + l) with style 3 and an empty swatch in J(2 + l) with style 6 + l, and nothing else |
| CalendarLayout.LayoutLookup | script.js:371-434 | every cell of the laid-out sheet is the one the row plan predicts: header, legend, weekday or grid |
| CalendarLayout.LayoutRows | script.js:364-436 | the sheet's rows are exactly 1 .. last grid row, with no gaps |
| CalendarLayout.WeekCountRange | script.js:402-434 | a month takes 4 to 6 weeks |
| CalendarLayout.LayoutDayCell | script.js:414 | day d sits at row `3 + w(1 + eventRows)` and column `A + (startDay + d - 1) % 7`, where `w = (startDay + d - 1) / 7`; day 1 sits in row 3, column A + startDay |
| CalendarLayout.LayoutNumberCells | script.js:414 | every numbered cell holds a day between 1 and the month's length, at that day's position; with LayoutDayCell there are exactly `daysInMonth` day cells |
| CalendarLayout.LayoutEventCells | script.js:420-429 | an event row of a week has a cell in a column exactly when the week's day row has a day there, and that cell is empty with style 3 |
| CalendarLayout.LayoutTopRows | script.js:374-395 | row 1 holds only the month title in A and "Legend" in I; row 2 holds the weekday names in A..G with style 2 |
| CalendarLayout.LayoutLegend | script.js:383-389 | slot l's label and swatch are in row 2 + l, with styles 3 and 6 + l |
| Calendar.CalendarColumns | script.js:327-331 | ten column definitions: width 13 for A..G, 3 for H, 18 for I and 7 for J |
| Calendar.PlaceHeader | script.js:371-381 | the month title and the legend header are added to row 1, and `monthRow` is the row object stored under 1, whose `cells` array is empty |
| Calendar.PlaceLegend | script.js:383-389 | the legend loop adds exactly the legend cells of LegendGridFacts |
| Calendar.PlaceWeekdays | script.js:391-395 | the weekday loop fills row 2 |
| Calendar.PlaceDays | script.js:403-418 | the inner day loop records the week's columns, places those days in the day row and advances `day` to the next week's first day |
| Calendar.PlaceEventRow | script.js:420-431 | one event row gets a cell under each real day; a row with none is deleted again |
| Calendar.PlaceWeek | script.js:402-433 | one pass of the while loop adds the week's day row and event rows and moves `currentRow` on by 1 + eventRows |
| Calendar.PlaceGrid | script.js:397-434 | the while loop lays out exactly the month's weeks |
| Calendar.PlaceAll | script.js:364-434 | the row map the builder fills holds exactly the layout, and `monthRow.cells` is still empty afterwards, since every placing step changes only row maps |
| Calendar.RestyleCells | script.js:439-442 | the `monthRow.cells` loop sets style 4 on each element of that array and changes nothing else |
| Calendar.AddRowsInOrder | script.js:437-444 | the rows are appended to the sheet in the order of the sorted keys; `monthRow.cells` is empty before and after, so the restyling at row 1 changes nothing |
| Calendar.AddSortedRows | script.js:435-444 | the sheet's rows are the map's rows in ascending row order, and their markup is the layout's |
| Calendar.GridMax | script.js:446 | the largest row of 3 or more, or none if there is no such row |
| Calendar.AddLegendRules | script.js:454-468 | one rule per legend slot is appended, in slot order |
| Calendar.FillSheet | script.js:377-468 | the sheet ends up with the two title merges, the rows in ascending order and the legend rules over the event range |
| Calendar.BuildCalendarSheet | script.js:317-485 | the builder's XML is the worksheet of the laid-out month |
| Calendar.CalendarRowOrder | script.js:436-444 | the rows go to the sheet as 1, 2, ..., last grid row, strictly ascending |
| Calendar.LastRowBound | script.js:446 | the last grid row is at least 6, so the event range always has a maximum |
| Calendar.CalendarRange | script.js:446-447 | the rules' range is `A4:G{last grid row}` |
| Calendar.LegendRuleTargets | script.js:454-459 | rule l has the event range, priority l + 1, DXF index l and formula `UPPER(A4)=UPPER($I${2 + l})`, and I(2 + l) holds slot l's label |
| Calendar.LegendRulesOneBlock | script.js:93-103 | the calendar's rules all share one range, so the sheet writes them in one `conditionalFormatting` block |
| Styles.GetStylesXml | script.js:487-549 | the styles part is the base tables followed by one fill, one cell format and one DXF per legend slot |
| Styles.StyleFills | script.js:493-504 | there are 5 + eventRows fills |
| Styles.StyleXfs | script.js:523-533 | there are 6 + eventRows cell formats |
| Styles.StyleDxfs | script.js:534-538 | there are eventRows DXFs |
| Styles.LegendSlotStyles | script.js:502-538 | slot i's cell format 6 + i uses fill 5 + i and a thin border; fill 5 + i and DXF i are both palette colour i |
| Styles.XfReferencesDefined | script.js:493-533 | every cell format names a font, fill and border that exist |
| Styles.XfXmlRoundTrip | script.js:524-532 | a cell format's markup reads back as its font, fill, border and alignment |
| Styles.FillXmlRoundTrip | script.js:494-503 | a fill's markup reads back as the fill |
| Styles.DxfXmlRoundTrip | script.js:537 | a DXF's markup reads back as its background colour |
| Styles.LegendSlotReadBack | script.js:502-538 | slot i's format, fill and DXF read back from the written markup |
| Tracker.GetTrackerSheetXml | script.js:551-584 | the tracker sheet is the header row followed by one row per legend slot, in slot order |
| Tracker.CellRefRoundTrip | script.js:565 | a `sheet!{col}{row}` reference reads back as its sheet, column and row |
| Tracker.TrackerFormulas | script.js:564-570 | row i + 2 refers to `Calendar!I{i + 2}` and counts that label over `Calendar!A:G` |
| Zip.Latin1RoundTrip | script.js:176-178 | for text whose characters are below 256, `stringToBytes` yields one byte per character, the `Uint8Array` keeps them, and they read back as the text |
| Zip.ToInt32Congruent | script.js:184-185 | the signed 32-bit value `&` and `>>=` work on differs from the number by a multiple of 2^32 |
| Zip.ToBytesLE | script.js:181-188 | the loop yields the little-endian bytes of the number, each between 0 and 255 |
| Zip.LittleEndianDecode | script.js:181-188 | the bytes decode to the number modulo 256^len |
| Zip.BytesLEDecode | script.js:181-188 | `toBytesLE(n, len)` decodes to n mod 256^len for the widths 2 and 4 the writer uses |
| Zip.CreateZip | script.js:191-257 | the loop's output is the local entries, then the central directory, then the end record, each value cut to a byte |
| Zip.ZipLength | script.js:191-257 | the archive is Σ(30 + name + content) + Σ(46 + name) + 22 bytes long |
| Zip.LocalRecord | script.js:202-216 | local entry k starts at the summed length of entries 0..k-1, with its signature, a zero CRC, both sizes equal to the content length mod 2^32 and the name length mod 2^16 |
| Zip.CentralRecord | script.js:219-238 | central entry k has its signature, a zero CRC, both sizes equal to the content length mod 2^32 and the name length mod 2^16 |
| Zip.CentralRecordOffset | script.js:236-239 | central entry k's offset field is the summed length of local entries 0..k-1 mod 2^32, and local entry k is found at that summed length |
| Zip.EndRecordFields | script.js:242-256 | the end record's two entry counts are `files.length` mod 2^16, its directory size is the directory's length mod 2^32, and its directory offset is the total length of the local entries mod 2^32 |
| Zip.ReadLocalEntry | script.js:202-216 | a local entry of a storable file reads back as that file, and the rest of the bytes follow it |
| Zip.ZipRoundTrip | script.js:191-257 | reading the archive back gives exactly the files written, in order |
| Package.PartListShape | script.js:709-721 | the handler lists seven parts, eight with the tracker; no two share a name; the tracker sheet is listed exactly when asked for |
| Package.PartsHaveContentTypes | script.js:269-280 | every part except `[Content_Types].xml` itself has a content type, from an Override or from its extension's Default |
| Package.OverridesNameParts | script.js:269-280 | every Override part name is a part in the list |
| Package.OverridesUnderXl | script.js:274-278 | every Override names a part under `/xl/` |
| Package.WorkbookRelIds | script.js:600-608 | every workbook relationship Id occurs once; rId3 occurs exactly when the tracker is included |
| Package.WorkbookSheetsResolve | script.js:586-608 | each sheet's `r:id` (rId1, rId2, and rId3 with the tracker) matches exactly one worksheet relationship, whose target is a listed part of worksheet type |
| Package.StylesRelResolves | script.js:600-608 | rId4 is the styles relationship, and its target is the styles part, of styles type |
| Package.RootRelResolves | script.js:282-287 | the package's one relationship points to the workbook part, of workbook type |
| Package.TrackerSheetResolves | script.js:595 | the Tracker sheet resolves to `sheet3.xml` and its content |
| Package.CalendarSheetResolves | script.js:592 | the Calendar sheet resolves to `sheet2.xml` and the calendar's content |
| Package.InstructionsSheetResolves | script.js:591 | the Instructions sheet resolves to `sheet1.xml` and the fixed instructions |
| Package.PartNamesLatin1 | script.js:709-721 | every part name is plain ASCII and fits the 16-bit name-length field |
| Package.DownloadReadsBack | script.js:709-724 | the downloaded archive reads back as exactly the handler's part list |
| Consistency.CalendarStylesDefined | script.js:384-389 | every calendar cell names a cell format the style table defines, and that format's font, fill and border exist |
| Consistency.LegendColoursAgree | script.js:447-459 | slot l's swatch and rule l both paint palette colour l of the style table (fill 5 + l and DXF l), and rule l matches the label in I(2 + l) |
| Consistency.TrackerFollowsLegend | script.js:564-572 | tracker row i + 2 reads `Calendar!I{i + 2}`, which is legend slot i's label; its description cell has the swatch's style 6 + i, a defined format |

## Left out

- The page: navigation, form parsing, `alert`, scrolling, the HTML preview
  `generateCalendar`, and the `Blob`/URL download. Browser I/O is outside
  the model. Whatever the form delivers becomes the parameters of
  `Package.PackageContents`.
- The `console.log` calls and the `xml.includes` diagnostic in the calendar
  builder. They only print.
- `ExcelBuilder`. Nothing constructs it.
- The `includeDrawing` parameter of the calendar builder. The builder never
  reads it, so the model drops it.
- The host `Date`. It is replaced by a proleptic Gregorian calendar that
  applies `new Date`'s reading of years 0..99. Time zones and years beyond
  the range `Date` can represent are not modelled.
- `parseInt` producing NaN, and month or event-row values outside 0..11 and
  1..9. Every member takes the month as `0 <= month < 12`, and the number of
  event rows as a natural number.
- CRC-32. The writer stores 0, and so does the model.
- Characters at U+10000 and above. `stringToBytes` keeps only their
  leading surrogate; the model does the same, but the round trips are
  proved only for text whose characters are below 256.
- `Object.keys` ordering. Keys that look like integers are listed first in
  JavaScript, but `sqref` strings never look like integers, so the model
  keeps first-seen order.
- Sheets.GroupBySqref: `rangeGroups` is a plain object, so a `sqref` naming
  an `Object.prototype` member (`toString`, `constructor`, `__proto__`)
  finds an inherited value and the `push` throws. The model groups every
  `sqref` as an ordinary key. The calendar's only range is `A4:G{n}`.
- Cells.Cell: the column is one character. `ExcelCell` accepts any string,
  but every caller passes a single letter, and `colToIndex` reads only the
  first character.
- Calendar.RestyleCells: the loop rewrites the values in the row's list
  instead of shared `ExcelCell` objects. The builder's list is proved empty
  (`Calendar.AddRowsInOrder`), so no cell can be affected through aliasing.
- Case-insensitive matching of extensions in the content-type table. The
  model compares extensions exactly, and the parts use lower-case ones.
- Reading the manifest parts back as text. Their consistency is proved
  over the entry lists the templates render, not by parsing the rendered
  XML.
- The Instructions sheet is a constant string. Only its part name,
  relationship and content type are checked.
- `ExcelSheet.toXML`, `ExcelRow.toXML` and `UniqueExcelRow.toXML` are
  functions over the object's fields rather than methods. They change
  nothing.
- The download handler's `files.push` calls are modelled by the function
  `Package.PartList`, which yields the finished array.
- Zip.ZipRoundTrip: proved only for fewer than 65536 files whose names and
  contents are below U+0100, with names under 2^16 characters and contents
  under 2^32 characters. Past those limits, the fields the source writes
  wrap around, and the archive cannot be read back.
- Package.DownloadReadsBack: proved under the same condition on each part's
  content.
- Cells.CellXmlRoundTrip: proved for cells whose type holds no `"` and
  whose raw numeric value holds no `<`. Otherwise the emitted markup is not
  well-formed, and no reader can take it apart.
- Sheets.RuleXmlRoundTrip: proved for inline fill colours without a `"`.
- Sheets.MergesRoundTrip: proved for merge ranges without a `"`.
- Styles.SwatchColor: past nine slots, the template prints "undefined".
  The model copies this, but the consistency lemmas do not forbid more than
  nine slots.
