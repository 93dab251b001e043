/**
 * The package manifest parts (getContentTypesXML, getRelsXML,
 * getWorkbookXML, getWorkbookRelsXML), the fixed Instructions sheet and the
 * list of parts the download handler hands to createZip.
 *
 * Each manifest template is rendered from a list of entries, one per line;
 * the Tracker line is a slot that renders as an empty line when the tracker
 * is switched off, as the template's `${includeTracker ? ... : ''}` does.
 * The lemmas check the package the way a reader of the Open Packaging
 * Conventions (ECMA-376 Part 2) would: every part has a content type, every
 * override names a part, and every relationship the workbook uses resolves
 * to exactly one target part.
 */
module Package {
  import opened Wrappers
  import opened XmlText
  import Zip
  import Cells
  import CalendarRows
  import CalendarLayout
  import Calendar
  import Styles
  import Tracker

  // ---------------------------------------------------------------------
  // Template plumbing
  // ---------------------------------------------------------------------

  const XmlDecl: string := "<?xml version=\"1.0\" encoding=\"UTF-8\"?>\n"

  /** One template line per entry: the indent, the entry's element and a newline. */
  function Lines<T>(indent: string, entries: seq<T>, render: T -> string): string {
    if entries == [] then "" else indent + render(entries[0]) + "\n" + Lines(indent, entries[1..], render)
  }

  /**
   * The template line `${includeTracker ? element : ''}`: the element when
   * the tracker is on, otherwise a line holding only the indent.
   */
  function TrackerLine<T>(indent: string, includeTracker: bool, entry: T, render: T -> string): string {
    indent + (if includeTracker then render(entry) else "") + "\n"
  }

  /** The entries a template lists: the fixed ones around the tracker's, which is there only when switched on. */
  function WithTrackerEntry<T>(before: seq<T>, includeTracker: bool, entry: T, after: seq<T>): seq<T> {
    before + (if includeTracker then [entry] else []) + after
  }

  // ---------------------------------------------------------------------
  // [Content_Types].xml
  // ---------------------------------------------------------------------

  const WorksheetType: string := "application/vnd.openxmlformats-officedocument.spreadsheetml.worksheet+xml"
  const WorkbookType: string := "application/vnd.openxmlformats-officedocument.spreadsheetml.sheet.main+xml"
  const StylesType: string := "application/vnd.openxmlformats-officedocument.spreadsheetml.styles+xml"
  const RelationshipsType: string := "application/vnd.openxmlformats-package.relationships+xml"

  /** A content-type entry: by file extension, or for one named part. */
  datatype TypeEntry = Default(extension: string, contentType: string) | Override(partName: string, contentType: string)

  function TypeEntryXml(e: TypeEntry): string {
    match e
    case Default(x, ct) => "<Default Extension=\"" + x + "\" ContentType=\"" + ct + "\"/>"
    case Override(p, ct) => "<Override PartName=\"" + p + "\" ContentType=\"" + ct + "\"/>"
  }

  const TypesBefore: seq<TypeEntry> :=
    [Default("rels", RelationshipsType), Default("xml", "application/xml"),
     Override("/xl/worksheets/sheet1.xml", WorksheetType), Override("/xl/worksheets/sheet2.xml", WorksheetType)]
  const TrackerType: TypeEntry := Override("/xl/worksheets/sheet3.xml", WorksheetType)
  const TypesAfter: seq<TypeEntry> := [Override("/xl/workbook.xml", WorkbookType), Override("/xl/styles.xml", StylesType)]

  /** The content-type entries the part declares, in document order. */
  function TypeEntries(includeTracker: bool): seq<TypeEntry> {
    WithTrackerEntry(TypesBefore, includeTracker, TrackerType, TypesAfter)
  }

  /** getContentTypesXML. */
  function ContentTypesXml(includeTracker: bool): string {
    XmlDecl +
    "<Types xmlns=\"http://schemas.openxmlformats.org/package/2006/content-types\">\n" +
    Lines("  ", TypesBefore, TypeEntryXml) +
    TrackerLine("  ", includeTracker, TrackerType, TypeEntryXml) +
    Lines("  ", TypesAfter, TypeEntryXml) +
    "</Types>"
  }

  /** The file extension of a part name is ext: the name ends in "." + ext and ext holds no dot. */
  predicate HasExtension(part: string, ext: string) {
    |part| > |ext| && part[|part| - |ext| - 1] == '.' && part[|part| - |ext|..] == ext && '.' !in ext
  }

  /** The content type of a part: its Override if there is one, otherwise the Default for its extension. */
  function ContentTypeOf(entries: seq<TypeEntry>, part: string): Option<string> {
    var o := OverrideFor(entries, part);
    if o.Some? then o else DefaultFor(entries, part)
  }

  function OverrideFor(entries: seq<TypeEntry>, part: string): (r: Option<string>)
    ensures r.Some? <==> exists e | e in entries :: e.Override? && e.partName == part
  {
    if entries == [] then None
    else if entries[0].Override? && entries[0].partName == part then Some(entries[0].contentType)
    else OverrideFor(entries[1..], part)
  }

  function DefaultFor(entries: seq<TypeEntry>, part: string): Option<string> {
    if entries == [] then None
    else if entries[0].Default? && HasExtension(part, entries[0].extension) then Some(entries[0].contentType)
    else DefaultFor(entries[1..], part)
  }

  // ---------------------------------------------------------------------
  // Relationship parts
  // ---------------------------------------------------------------------

  const RelationshipNs: string := "http://schemas.openxmlformats.org/officeDocument/2006/relationships"
  const OfficeDocumentRel: string := RelationshipNs + "/officeDocument"
  const WorksheetRel: string := RelationshipNs + "/worksheet"
  const StylesRel: string := RelationshipNs + "/styles"

  datatype Relationship = Relationship(id: string, relType: string, target: string)

  function RelationshipXml(r: Relationship): string {
    "<Relationship Id=\"" + r.id + "\" Type=\"" + r.relType + "\" Target=\"" + r.target + "\"/>"
  }

  const RelationshipsOpen: string :=
    XmlDecl + "<Relationships xmlns=\"http://schemas.openxmlformats.org/package/2006/relationships\">\n"

  /** The package's own relationships: the workbook is the office document. */
  const RootRels: seq<Relationship> := [Relationship("rId1", OfficeDocumentRel, "xl/workbook.xml")]

  /** getRelsXML. */
  function RelsXml(): string {
    RelationshipsOpen + Lines("  ", RootRels, RelationshipXml) + "</Relationships>"
  }

  /** The workbook's relationships; targets are relative to the folder xl/. */
  const RelsBefore: seq<Relationship> :=
    [Relationship("rId1", WorksheetRel, "worksheets/sheet1.xml"), Relationship("rId2", WorksheetRel, "worksheets/sheet2.xml")]
  const TrackerRel: Relationship := Relationship("rId3", WorksheetRel, "worksheets/sheet3.xml")
  const RelsAfter: seq<Relationship> := [Relationship("rId4", StylesRel, "styles.xml")]

  function WorkbookRels(includeTracker: bool): seq<Relationship> {
    WithTrackerEntry(RelsBefore, includeTracker, TrackerRel, RelsAfter)
  }

  /** getWorkbookRelsXML. */
  function WorkbookRelsXml(includeTracker: bool): string {
    RelationshipsOpen +
    Lines("  ", RelsBefore, RelationshipXml) +
    TrackerLine("  ", includeTracker, TrackerRel, RelationshipXml) +
    Lines("  ", RelsAfter, RelationshipXml) +
    "</Relationships>"
  }

  /** How many relationships carry the given Id. */
  function CountId(rels: seq<Relationship>, id: string): nat {
    if rels == [] then 0 else (if rels[0].id == id then 1 else 0) + CountId(rels[1..], id)
  }

  /** The relationship with the given Id, the first one if there were several. */
  function RelById(rels: seq<Relationship>, id: string): (r: Option<Relationship>)
    ensures r.Some? ==> r.value in rels && r.value.id == id
    ensures r.None? ==> CountId(rels, id) == 0
  {
    if rels == [] then None
    else if rels[0].id == id then Some(rels[0])
    else RelById(rels[1..], id)
  }

  // ---------------------------------------------------------------------
  // xl/workbook.xml
  // ---------------------------------------------------------------------

  /** The sheet's tab colour: none, on a line of its own, or inline. */
  datatype Tab = NoTab | TabBelow(rgb: string) | TabInline(rgb: string)

  datatype Sheet = Sheet(name: string, sheetId: nat, rid: string, tab: Tab)

  function SheetXml(s: Sheet): string {
    "<sheet name=\"" + s.name + "\" sheetId=\"" + NatToString(s.sheetId) + "\" r:id=\"" + s.rid + "\"" +
    (match s.tab
     case NoTab => "/>"
     case TabBelow(c) => ">\n      <tabColor rgb=\"" + c + "\"/>\n    </sheet>"
     case TabInline(c) => "><tabColor rgb=\"" + c + "\"/></sheet>")
  }

  const SheetsBefore: seq<Sheet> := [Sheet("Instructions", 1, "rId1", NoTab), Sheet("Calendar", 2, "rId2", TabBelow("FF00B050"))]
  const TrackerSheet: Sheet := Sheet("Tracker", 3, "rId3", TabInline("FF7030A0"))

  /** The sheets the workbook lists, in tab order. */
  function WorkbookSheets(includeTracker: bool): seq<Sheet> {
    WithTrackerEntry(SheetsBefore, includeTracker, TrackerSheet, [])
  }

  /** getWorkbookXML. */
  function WorkbookXml(includeTracker: bool): string {
    "<?xml version=\"1.0\" encoding=\"UTF-8\" standalone=\"yes\"?>\n" +
    "<workbook xmlns=\"http://schemas.openxmlformats.org/spreadsheetml/2006/main\"\n" +
    " xmlns:r=\"" + RelationshipNs + "\">\n" +
    "  <sheets>\n" +
    Lines("    ", SheetsBefore, SheetXml) +
    TrackerLine("    ", includeTracker, TrackerSheet, SheetXml) +
    "  </sheets>\n" +
    "</workbook>"
  }

  // ---------------------------------------------------------------------
  // xl/worksheets/sheet1.xml: the fixed Instructions sheet
  // ---------------------------------------------------------------------

  /** getSheet1InstructionsXML: a constant worksheet; non-ASCII symbols are numeric character references. */
  const InstructionsXml: string :=
    "<?xml version=\"1.0\" encoding=\"UTF-8\"?>\n" +
    "<worksheet xmlns=\"http://schemas.openxmlformats.org/spreadsheetml/2006/main\">\n" +
    "  <cols><col min=\"1\" max=\"8\" width=\"15\"/></cols>\n" +
    "  <sheetData>\n" +
    "    <row r=\"1\">\n" +
    "      <c r=\"A1\" t=\"inlineStr\" s=\"4\"><is><t>&#128197; How to Use This Smart Calendar" +
    " Workbook</t></is></c>\n" +
    "      <c r=\"B1\" s=\"4\"></c>\n" +
    "      <c r=\"C1\" s=\"4\"></c>\n" +
    "      <c r=\"D1\" s=\"4\"></c>\n" +
    "      <c r=\"E1\" s=\"4\"></c>\n" +
    "      <c r=\"F1\" s=\"4\"></c>\n" +
    "      <c r=\"G1\" s=\"4\"></c>\n" +
    "      <c r=\"H1\" s=\"4\"></c>\n" +
    "    </row>\n" +
    "    <row r=\"2\"><c r=\"A2\" t=\"inlineStr\" s=\"5\"><is><t>&#127881; This Excel workbook was" +
    " generated by Free Excel Generators with advanced conditional formatting!&#10;&#10;&#10024;" +
    " Smart Features:&#10;&#128221; Enter custom values in the Legend column (right" +
    " side)&#10;&#127912; Type matching text in calendar cells - they auto-highlight with legend" +
    " colors!&#10;&#128202; Optional Tracker sheet automatically counts your entries&#10;&#128241;" +
    " Works perfectly in Excel, Google Sheets, and other spreadsheet apps&#10;&#10;&#128640; Quick" +
    " Start:&#10;&#49;&#65039;&#8419; Replace &quot;Enter Value Here&quot; in Legend with your own" +
    " labels (Gym, Meeting, Holiday, etc.)&#10;&#50;&#65039;&#8419; Type those same labels in" +
    " calendar event cells&#10;&#51;&#65039;&#8419; Watch the magic - cells automatically highlight" +
    " with matching colors!&#10;&#52;&#65039;&#8419; Check the Tracker sheet (if included) for" +
    " automatic counting&#10;&#10;&#128161; Pro Tip: Text matching is case-insensitive (gym = Gym =" +
    " GYM)&#10;&#10;&#127760; www.freeexcelgenerator.com</t></is></c></row>\n" +
    "  </sheetData>\n" +
    "  <mergeCells count=\"2\"><mergeCell ref=\"A1:H1\"/><mergeCell ref=\"A2:H25\"/></mergeCells>\n" +
    "</worksheet>"

  // ---------------------------------------------------------------------
  // The part list
  // ---------------------------------------------------------------------

  const ContentTypesPart: string := "[Content_Types].xml"
  const RootRelsPart: string := "_rels/.rels"
  const WorkbookPart: string := "xl/workbook.xml"
  const InstructionsPart: string := "xl/worksheets/sheet1.xml"
  const CalendarPart: string := "xl/worksheets/sheet2.xml"
  const StylesPart: string := "xl/styles.xml"
  const TrackerPart: string := "xl/worksheets/sheet3.xml"
  const WorkbookRelsPart: string := "xl/_rels/workbook.xml.rels"

  /** What goes into each part of the download. */
  datatype PartContents = PartContents(contentTypes: string, rels: string, workbook: string, instructions: string,
                                       calendar: string, styles: string, tracker: string, workbookRels: string)

  /** The styles part getStylesXML writes for the given number of legend slots. */
  function StylesXml(eventRows: nat): string {
    Styles.StyleSheetXml(Styles.StyleFills(eventRows), Styles.StyleXfs(eventRows), Styles.StyleDxfs(eventRows))
  }

  /** The tracker part getTrackerSheetXML writes. */
  function TrackerXml(eventRows: nat): string {
    Tracker.TrackerSheetXml(Tracker.TrackerRows(eventRows))
  }

  /**
   * The generators' output for the form's year, month (0-based), number of
   * event rows and tracker switch. The calendar sheet is built without a
   * drawing reference, as the handler asks for.
   */
  function PackageContents(year: int, month: int, eventRows: nat, includeTracker: bool): PartContents
    requires 0 <= month < 12
  {
    PartContents(ContentTypesXml(includeTracker), RelsXml(), WorkbookXml(includeTracker), InstructionsXml,
                 Calendar.CalendarSheetXml(year, month, eventRows), StylesXml(eventRows),
                 TrackerXml(eventRows), WorkbookRelsXml(includeTracker))
  }

  /**
   * The download handler's part list: the six parts of the array literal,
   * the tracker sheet pushed when it is asked for, then the workbook
   * relationships pushed last.
   */
  function PartList(includeTracker: bool, c: PartContents): seq<Zip.ZipFile> {
    [Zip.ZipFile(ContentTypesPart, c.contentTypes),
     Zip.ZipFile(RootRelsPart, c.rels),
     Zip.ZipFile(WorkbookPart, c.workbook),
     Zip.ZipFile(InstructionsPart, c.instructions),
     Zip.ZipFile(CalendarPart, c.calendar),
     Zip.ZipFile(StylesPart, c.styles)] +
    (if includeTracker then [Zip.ZipFile(TrackerPart, c.tracker)] else []) +
    [Zip.ZipFile(WorkbookRelsPart, c.workbookRels)]
  }

  /** The content of the part with the given name, the first one if there were several. */
  function PartContent(files: seq<Zip.ZipFile>, name: string): (r: Option<string>)
    ensures r.Some? <==> exists f | f in files :: f.name == name
  {
    if files == [] then None
    else if files[0].name == name then Some(files[0].content)
    else PartContent(files[1..], name)
  }

  /** The part name a workbook sheet resolves to: its relationship's target, under xl/. */
  function SheetPart(includeTracker: bool, s: Sheet): Option<string> {
    var r := RelById(WorkbookRels(includeTracker), s.rid);
    if r.Some? then Some("xl/" + r.value.target) else None
  }

  /** What a reader finds behind a workbook sheet: the content of the part its relationship names. */
  function SheetContent(includeTracker: bool, files: seq<Zip.ZipFile>, s: Sheet): Option<string> {
    var p := SheetPart(includeTracker, s);
    if p.Some? then PartContent(files, p.value) else None
  }

  // ---------------------------------------------------------------------
  // Package consistency
  // ---------------------------------------------------------------------

  /**
   * The handler lists seven parts, eight with the tracker; no two share a
   * name, and the tracker sheet is among them exactly when it is asked for.
   */
  lemma PartListShape(includeTracker: bool, c: PartContents)
    ensures var files := PartList(includeTracker, c);
            && |files| == (if includeTracker then 8 else 7)
            && (forall i, j | 0 <= i < j < |files| :: files[i].name != files[j].name)
            && ((exists f | f in files :: f.name == TrackerPart) <==> includeTracker)
  {
    var files := PartList(includeTracker, c);
    if !includeTracker {
      assert forall f | f in files :: f.name != TrackerPart;
    } else {
      assert files[6].name == TrackerPart;
    }
  }

  lemma {:induction false} OverrideForFound(entries: seq<TypeEntry>, k: nat, part: string)
    requires k < |entries| && entries[k].Override? && entries[k].partName == part
    requires forall j | 0 <= j < k :: !(entries[j].Override? && entries[j].partName == part)
    ensures OverrideFor(entries, part) == Some(entries[k].contentType)
  {
    if k > 0 {
      OverrideForFound(entries[1..], k - 1, part);
    }
  }

  /** Every Override names a part under /xl/. */
  lemma OverridesUnderXl(includeTracker: bool)
    ensures forall e | e in TypeEntries(includeTracker) && e.Override? :: |e.partName| > 4 && e.partName[..4] == "/xl/"
  {
  }

  /** The package relationships get their type from the Default for the extension "rels". */
  lemma RootRelsPartType(includeTracker: bool)
    ensures ContentTypeOf(TypeEntries(includeTracker), "/" + RootRelsPart) == Some(RelationshipsType)
  {
    OverridesUnderXl(includeTracker);
    assert ("/" + RootRelsPart)[..4] != "/xl/" by {
      assert ("/" + RootRelsPart)[1] == '_';
    }
    assert HasExtension("/" + RootRelsPart, "rels");
  }

  /** So do the workbook relationships: no Override claims them. */
  lemma WorkbookRelsPartType(includeTracker: bool)
    ensures ContentTypeOf(TypeEntries(includeTracker), "/" + WorkbookRelsPart) == Some(RelationshipsType)
  {
    var types := TypeEntries(includeTracker);
    assert forall e | e in types && e.Override? :: e.partName[|e.partName| - 1] == 'l';
    assert ("/" + WorkbookRelsPart)[|"/" + WorkbookRelsPart| - 1] == 's';
    assert HasExtension("/" + WorkbookRelsPart, "rels");
  }

  lemma InstructionsPartType(includeTracker: bool)
    ensures TypeEntries(includeTracker)[2] == Override("/" + InstructionsPart, WorksheetType)
    ensures ContentTypeOf(TypeEntries(includeTracker), "/" + InstructionsPart) == Some(WorksheetType)
  {
    assert "/" + InstructionsPart == "/xl/worksheets/sheet1.xml";
    OverrideForFound(TypeEntries(includeTracker), 2, "/" + InstructionsPart);
  }

  lemma CalendarPartType(includeTracker: bool)
    ensures TypeEntries(includeTracker)[3] == Override("/" + CalendarPart, WorksheetType)
    ensures ContentTypeOf(TypeEntries(includeTracker), "/" + CalendarPart) == Some(WorksheetType)
  {
    assert "/" + CalendarPart == "/xl/worksheets/sheet2.xml";
    OverrideForFound(TypeEntries(includeTracker), 3, "/" + CalendarPart);
  }

  lemma TrackerPartType()
    ensures TypeEntries(true)[4] == Override("/" + TrackerPart, WorksheetType)
    ensures ContentTypeOf(TypeEntries(true), "/" + TrackerPart) == Some(WorksheetType)
  {
    assert "/" + TrackerPart == "/xl/worksheets/sheet3.xml";
    OverrideForFound(TypeEntries(true), 4, "/" + TrackerPart);
  }

  lemma WorkbookPartType(includeTracker: bool)
    ensures TypeEntries(includeTracker)[if includeTracker then 5 else 4] == Override("/" + WorkbookPart, WorkbookType)
    ensures ContentTypeOf(TypeEntries(includeTracker), "/" + WorkbookPart) == Some(WorkbookType)
  {
    assert "/" + WorkbookPart == "/xl/workbook.xml";
    OverrideForFound(TypeEntries(includeTracker), if includeTracker then 5 else 4, "/" + WorkbookPart);
  }

  lemma StylesPartType(includeTracker: bool)
    ensures TypeEntries(includeTracker)[if includeTracker then 6 else 5] == Override("/" + StylesPart, StylesType)
    ensures ContentTypeOf(TypeEntries(includeTracker), "/" + StylesPart) == Some(StylesType)
  {
    assert "/" + StylesPart == "/xl/styles.xml";
    OverrideForFound(TypeEntries(includeTracker), if includeTracker then 6 else 5, "/" + StylesPart);
  }

  /** Every part of the download after the content types stream (part 0) gets a content type. */
  lemma PartsHaveContentTypes(includeTracker: bool, c: PartContents)
    ensures var files := PartList(includeTracker, c);
            forall i | 1 <= i < |files| :: ContentTypeOf(TypeEntries(includeTracker), "/" + files[i].name).Some?
  {
    var files := PartList(includeTracker, c);
    forall i | 1 <= i < |files|
      ensures ContentTypeOf(TypeEntries(includeTracker), "/" + files[i].name).Some?
    {
      if i == 1 {
        RootRelsPartType(includeTracker);
      } else if i == 2 {
        WorkbookPartType(includeTracker);
      } else if i == 3 {
        InstructionsPartType(includeTracker);
      } else if i == 4 {
        CalendarPartType(includeTracker);
      } else if i == 5 {
        StylesPartType(includeTracker);
      } else if i == |files| - 1 {
        WorkbookRelsPartType(includeTracker);
      } else {
        TrackerPartType();
      }
    }
  }

  /** Every Override of [Content_Types].xml names a part of the download; the sheet3 one only comes with sheet3. */
  lemma OverridesNameParts(includeTracker: bool, c: PartContents)
    ensures var types := TypeEntries(includeTracker);
            forall k | 0 <= k < |types| && types[k].Override? ::
              exists f | f in PartList(includeTracker, c) :: "/" + f.name == types[k].partName
  {
    var files := PartList(includeTracker, c);
    var types := TypeEntries(includeTracker);
    InstructionsPartType(includeTracker);
    CalendarPartType(includeTracker);
    WorkbookPartType(includeTracker);
    StylesPartType(includeTracker);
    if includeTracker {
      TrackerPartType();
    }
    forall k | 0 <= k < |types| && types[k].Override?
      ensures exists f | f in files :: "/" + f.name == types[k].partName
    {
      var i := if k == 2 then 3 else if k == 3 then 4 else if includeTracker && k == 4 then 6
               else if k == |types| - 2 then 2 else 5;
      assert "/" + files[i].name == types[k].partName;
      assert files[i] in files;
    }
  }

  lemma {:induction false} RelByIdFound(rels: seq<Relationship>, k: nat, id: string)
    requires k < |rels| && rels[k].id == id
    requires forall j | 0 <= j < k :: rels[j].id != id
    ensures RelById(rels, id) == Some(rels[k])
  {
    if k > 0 {
      RelByIdFound(rels[1..], k - 1, id);
    }
  }

  /** With pairwise distinct Ids, an Id is carried by one relationship or by none. */
  lemma {:induction false} CountIdDistinct(rels: seq<Relationship>, id: string)
    requires forall i, j | 0 <= i < j < |rels| :: rels[i].id != rels[j].id
    ensures CountId(rels, id) == if exists k | 0 <= k < |rels| :: rels[k].id == id then 1 else 0
  {
    if rels != [] {
      var tail := rels[1..];
      CountIdDistinct(tail, id);
      if rels[0].id == id {
        assert !exists k | 0 <= k < |tail| :: tail[k].id == id by {
          forall k | 0 <= k < |tail| ensures tail[k].id != id {
            assert tail[k] == rels[k + 1];
          }
        }
      } else {
        if exists k | 0 <= k < |rels| :: rels[k].id == id {
          var k :| 0 <= k < |rels| && rels[k].id == id;
          assert tail[k - 1].id == id;
        }
        if exists k | 0 <= k < |tail| :: tail[k].id == id {
          var k :| 0 <= k < |tail| && tail[k].id == id;
          assert rels[k + 1].id == id;
        }
      }
    }
  }

  /**
   * The workbook relationships carry rId1, rId2, rId4 and, with the tracker,
   * rId3: each Id once, and rId3 exactly when the tracker sheet is written.
   */
  lemma WorkbookRelIds(includeTracker: bool)
    ensures var rels := WorkbookRels(includeTracker);
            && (forall k | 0 <= k < |rels| :: CountId(rels, rels[k].id) == 1)
            && CountId(rels, "rId3") == (if includeTracker then 1 else 0)
  {
    var rels := WorkbookRels(includeTracker);
    assert forall i, j | 0 <= i < j < |rels| :: rels[i].id[3] != rels[j].id[3];
    forall k | 0 <= k < |rels| ensures CountId(rels, rels[k].id) == 1 {
      CountIdDistinct(rels, rels[k].id);
    }
    CountIdDistinct(rels, "rId3");
    if !includeTracker {
      assert forall k | 0 <= k < |rels| :: rels[k].id[3] != '3';
    } else {
      assert rels[2].id == "rId3";
    }
  }

  lemma {:induction false} PartContentAt(files: seq<Zip.ZipFile>, k: nat, name: string)
    requires k < |files| && files[k].name == name
    requires forall j | 0 <= j < k :: files[j].name != name
    ensures PartContent(files, name) == Some(files[k].content)
  {
    if k > 0 {
      PartContentAt(files[1..], k - 1, name);
    }
  }

  // Relationship targets are relative to xl/, the workbook's folder.
  lemma Sheet1Target()
    ensures "xl/" + "worksheets/sheet1.xml" == InstructionsPart
  {
  }

  lemma Sheet2Target()
    ensures "xl/" + "worksheets/sheet2.xml" == CalendarPart
  {
  }

  lemma Sheet3Target()
    ensures "xl/" + "worksheets/sheet3.xml" == TrackerPart
  {
  }

  /** Sheet "Instructions" (r:id rId1) resolves to xl/worksheets/sheet1.xml, the instructions part. */
  lemma InstructionsSheetResolves(includeTracker: bool, c: PartContents)
    ensures SheetPart(includeTracker, SheetsBefore[0]) == Some(InstructionsPart)
    ensures SheetContent(includeTracker, PartList(includeTracker, c), SheetsBefore[0]) == Some(c.instructions)
  {
    RelByIdFound(WorkbookRels(includeTracker), 0, "rId1");
    Sheet1Target();
    InstructionsPartContent(includeTracker, c);
  }

  lemma InstructionsPartContent(includeTracker: bool, c: PartContents)
    ensures PartContent(PartList(includeTracker, c), InstructionsPart) == Some(c.instructions)
  {
    var files := PartList(includeTracker, c);
    assert forall j | 0 <= j < 3 :: |files[j].name| != |InstructionsPart|;
    PartContentAt(files, 3, InstructionsPart);
  }

  /** Sheet "Calendar" (r:id rId2) resolves to xl/worksheets/sheet2.xml, the calendar part. */
  lemma CalendarSheetResolves(includeTracker: bool, c: PartContents)
    ensures SheetPart(includeTracker, SheetsBefore[1]) == Some(CalendarPart)
    ensures SheetContent(includeTracker, PartList(includeTracker, c), SheetsBefore[1]) == Some(c.calendar)
  {
    RelByIdFound(WorkbookRels(includeTracker), 1, "rId2");
    Sheet2Target();
    CalendarPartContent(includeTracker, c);
  }

  lemma CalendarPartContent(includeTracker: bool, c: PartContents)
    ensures PartContent(PartList(includeTracker, c), CalendarPart) == Some(c.calendar)
  {
    var files := PartList(includeTracker, c);
    assert forall j | 0 <= j < 3 :: |files[j].name| != |CalendarPart|;
    assert files[3].name[19] != CalendarPart[19];
    PartContentAt(files, 4, CalendarPart);
  }

  /** Sheet "Tracker" (r:id rId3) resolves to xl/worksheets/sheet3.xml, the tracker part. */
  lemma TrackerSheetResolves(c: PartContents)
    ensures SheetPart(true, TrackerSheet) == Some(TrackerPart)
    ensures SheetContent(true, PartList(true, c), TrackerSheet) == Some(c.tracker)
  {
    RelByIdFound(WorkbookRels(true), 2, "rId3");
    Sheet3Target();
    TrackerPartContent(c);
  }

  lemma TrackerPartContent(c: PartContents)
    ensures PartContent(PartList(true, c), TrackerPart) == Some(c.tracker)
  {
    var files := PartList(true, c);
    assert forall j | 0 <= j < 6 && j != 3 && j != 4 :: |files[j].name| != |TrackerPart|;
    assert files[3].name[19] != TrackerPart[19];
    assert files[4].name[19] != TrackerPart[19];
    PartContentAt(files, 6, TrackerPart);
  }

  /**
   * Every sheet of the workbook names, by its r:id, exactly one worksheet
   * relationship; the part that relationship targets is in the download and
   * is declared a worksheet in [Content_Types].xml.
   */
  lemma WorkbookSheetsResolve(includeTracker: bool, c: PartContents)
    ensures var sheets := WorkbookSheets(includeTracker);
            var rels := WorkbookRels(includeTracker);
            forall k | 0 <= k < |sheets| ::
              && CountId(rels, sheets[k].rid) == 1
              && RelById(rels, sheets[k].rid).Some?
              && RelById(rels, sheets[k].rid).value.relType == WorksheetRel
              && SheetPart(includeTracker, sheets[k]).Some?
              && SheetContent(includeTracker, PartList(includeTracker, c), sheets[k]).Some?
              && ContentTypeOf(TypeEntries(includeTracker), "/" + SheetPart(includeTracker, sheets[k]).value) == Some(WorksheetType)
  {
    var sheets := WorkbookSheets(includeTracker);
    var rels := WorkbookRels(includeTracker);
    WorkbookRelIds(includeTracker);
    forall k | 0 <= k < |sheets|
      ensures && CountId(rels, sheets[k].rid) == 1
              && RelById(rels, sheets[k].rid).Some?
              && RelById(rels, sheets[k].rid).value.relType == WorksheetRel
              && SheetPart(includeTracker, sheets[k]).Some?
              && SheetContent(includeTracker, PartList(includeTracker, c), sheets[k]).Some?
              && ContentTypeOf(TypeEntries(includeTracker), "/" + SheetPart(includeTracker, sheets[k]).value) == Some(WorksheetType)
    {
      assert sheets[k].rid == rels[k].id;
      if k == 0 {
        InstructionsSheetResolves(includeTracker, c);
        InstructionsPartType(includeTracker);
      } else if k == 1 {
        CalendarSheetResolves(includeTracker, c);
        CalendarPartType(includeTracker);
      } else {
        TrackerSheetResolves(c);
        TrackerPartType();
      }
      RelByIdFound(rels, k, sheets[k].rid);
    }
  }

  /** rId4 is the styles relationship; its target, under xl/, is the styles part. */
  lemma StylesRelTarget(includeTracker: bool)
    ensures RelById(WorkbookRels(includeTracker), "rId4") == Some(Relationship("rId4", StylesRel, "styles.xml"))
    ensures "xl/" + "styles.xml" == StylesPart
  {
    var rels := WorkbookRels(includeTracker);
    RelByIdFound(rels, |rels| - 1, "rId4");
  }

  /** The styles relationship leads to xl/styles.xml, which holds the style sheet and is typed as one. */
  lemma StylesRelResolves(includeTracker: bool, c: PartContents)
    ensures var r := RelById(WorkbookRels(includeTracker), "rId4");
            && r.Some? && r.value.relType == StylesRel
            && PartContent(PartList(includeTracker, c), "xl/" + r.value.target) == Some(c.styles)
            && ContentTypeOf(TypeEntries(includeTracker), "/" + ("xl/" + r.value.target)) == Some(StylesType)
  {
    StylesRelTarget(includeTracker);
    var files := PartList(includeTracker, c);
    assert forall j | 0 <= j < 5 :: |files[j].name| != |StylesPart|;
    PartContentAt(files, 5, StylesPart);
    StylesPartType(includeTracker);
  }

  /** _rels/.rels points the package at xl/workbook.xml, which holds the workbook and is typed as one. */
  lemma RootRelResolves(includeTracker: bool, c: PartContents)
    ensures |RootRels| == 1 && RootRels[0].relType == OfficeDocumentRel
    ensures PartContent(PartList(includeTracker, c), RootRels[0].target) == Some(c.workbook)
    ensures ContentTypeOf(TypeEntries(includeTracker), "/" + RootRels[0].target) == Some(WorkbookType)
  {
    var files := PartList(includeTracker, c);
    assert forall j | 0 <= j < 2 :: |files[j].name| != |WorkbookPart|;
    PartContentAt(files, 2, WorkbookPart);
    WorkbookPartType(includeTracker);
  }

  /** Every generated text fits a stored zip entry: one byte per character, under 4 GiB. */
  predicate ContentsStorable(c: PartContents) {
    && Zip.Latin1(c.contentTypes) && |c.contentTypes| < Zip.Two32
    && Zip.Latin1(c.rels) && |c.rels| < Zip.Two32
    && Zip.Latin1(c.workbook) && |c.workbook| < Zip.Two32
    && Zip.Latin1(c.instructions) && |c.instructions| < Zip.Two32
    && Zip.Latin1(c.calendar) && |c.calendar| < Zip.Two32
    && Zip.Latin1(c.styles) && |c.styles| < Zip.Two32
    && Zip.Latin1(c.tracker) && |c.tracker| < Zip.Two32
    && Zip.Latin1(c.workbookRels) && |c.workbookRels| < Zip.Two32
  }

  /** Every part name is plain ASCII and short. */
  lemma PartNamesLatin1(includeTracker: bool, c: PartContents)
    ensures var files := PartList(includeTracker, c);
            forall i | 0 <= i < |files| :: Zip.Latin1(files[i].name) && |files[i].name| < 0x1_0000
  {
    var files := PartList(includeTracker, c);
    forall i | 0 <= i < |files| ensures Zip.Latin1(files[i].name) && |files[i].name| < 0x1_0000 {
      if i == 0 { NameLatin1(ContentTypesPart); }
      else if i == 1 { NameLatin1(RootRelsPart); }
      else if i == 2 { NameLatin1(WorkbookPart); }
      else if i == 3 { NameLatin1(InstructionsPart); }
      else if i == 4 { NameLatin1(CalendarPart); }
      else if i == 5 { NameLatin1(StylesPart); }
      else if i == |files| - 1 { NameLatin1(WorkbookRelsPart); }
      else { NameLatin1(TrackerPart); }
    }
  }

  lemma NameLatin1(n: string)
    requires n in {ContentTypesPart, RootRelsPart, WorkbookPart, InstructionsPart, CalendarPart, StylesPart,
                   TrackerPart, WorkbookRelsPart}
    ensures Zip.Latin1(n) && |n| < 0x1_0000
  {
  }

  /** The archive createZip makes of the handler's part list reads back as that part list. */
  lemma DownloadReadsBack(includeTracker: bool, c: PartContents)
    requires ContentsStorable(c)
    ensures Zip.ReadArchive(Zip.Uint8(Zip.ZipBytes(PartList(includeTracker, c)))) == Some(PartList(includeTracker, c))
  {
    var files := PartList(includeTracker, c);
    PartNamesLatin1(includeTracker, c);
    forall f | f in files ensures Zip.Storable(f) {
      var i :| 0 <= i < |files| && files[i] == f;
    }
    Zip.ZipRoundTrip(files);
  }
}
