/**
 * getStylesXML: the workbook's style table. Fills, cell formats (xfs) and
 * differential formats (dxfs) each grow by one entry per legend slot, and
 * the calendar and tracker sheets refer to those entries by position.
 */
module Styles {
  import opened Wrappers
  import opened XmlText

  /** The style table's own palette (not the one the calendar's rules carry). */
  const StylePalette: seq<string> := ["FFDC143C", "FF228B22", "FF1E90FF", "FFFFA500", "FF800080",
                                      "FFFFFF00", "FF00CED1", "FF8B4513", "FF4682B4"]

  /** palette[i]; past its nine entries the template prints JavaScript's "undefined". */
  function SwatchColor(i: nat): (c: string)
    ensures '"' !in c
  {
    if i < |StylePalette| then StylePalette[i] else "undefined"
  }

  datatype Fill = NoFill | Gray125 | Solid(rgb: string)

  /** A cell format: font, fill and border by index, and an optional centred alignment (wrapping or not). */
  datatype Xf = Xf(fontId: nat, fillId: nat, borderId: nat, centered: Option<bool>)

  /** A differential format: a solid background colour. */
  datatype Dxf = DxfFill(bg: string)

  const FillOpen: string := "<fill><patternFill patternType=\""
  const SolidClose: string := "/><bgColor indexed=\"64\"/></patternFill></fill>"

  function FillXml(f: Fill): string {
    match f
    case NoFill => FillOpen + ("none" + "\"/></fill>")
    case Gray125 => FillOpen + ("gray125" + "\"/></fill>")
    case Solid(rgb) => FillOpen + ("solid" + ("\"><fgColor rgb=\"" + (rgb + ("\"" + SolidClose))))
  }

  const Centered: string := " horizontal=\"center\" vertical=\"center\""

  function AlignmentXml(centered: Option<bool>): string {
    match centered
    case None => "/>"
    case Some(wrap) => "><alignment" + (Centered + (if wrap then " wrapText=\"1\"/></xf>" else "/></xf>"))
  }

  /** A numeric attribute ` name="n"`. */
  function NatAttr(name: string, n: nat): string {
    " " + name + "=\"" + NatToString(n) + "\""
  }

  function XfXml(x: Xf): string {
    "<xf numFmtId=\"0\"" + (NatAttr("fontId", x.fontId) + (NatAttr("fillId", x.fillId) +
    (NatAttr("borderId", x.borderId) + (" xfId=\"0\"" + AlignmentXml(x.centered)))))
  }

  function DxfXml(d: Dxf): string {
    "<dxf><fill><patternFill patternType=\"solid\"><bgColor rgb=\"" + d.bg + "\"/></patternFill></fill></dxf>"
  }

  /** Fonts 0..4: normal, bold, big bold header, legend header bold, instruction text. */
  const Fonts: seq<string> := [
    "<font><sz val=\"11\"/><color theme=\"1\"/><name val=\"Calibri\"/><family val=\"2\"/></font>",
    "<font><b/><sz val=\"11\"/><color theme=\"1\"/><name val=\"Calibri\"/><family val=\"2\"/></font>",
    "<font><b/><sz val=\"16\"/><color theme=\"1\"/><name val=\"Calibri\"/><family val=\"2\"/></font>",
    "<font><b/><sz val=\"12\"/><color theme=\"1\"/><name val=\"Calibri\"/><family val=\"2\"/></font>",
    "<font><sz val=\"13\"/><color theme=\"1\"/><name val=\"Calibri\"/><family val=\"2\"/></font>"]

  /** Borders 0..2: none, thin box, bottom only. */
  const Borders: seq<string> := [
    "<border/>",
    "<border><left style=\"thin\"/><right style=\"thin\"/><top style=\"thin\"/><bottom style=\"thin\"/></border>",
    "<border><bottom style=\"thin\"/></border>"]

  /** Fills 0..4: none, gray125, header green, legend header green, instruction yellow. */
  const BaseFills: seq<Fill> := [NoFill, Gray125, Solid("FFB6D7A8"), Solid("FFD9EAD3"), Solid("FFFFFF9C")]

  /** Cell formats 0..5: normal, bold, bold boxed, boxed, big header, instruction text. */
  const BaseXfs: seq<Xf> := [Xf(0, 0, 0, None), Xf(1, 0, 0, None), Xf(1, 0, 1, None), Xf(0, 0, 1, None),
                             Xf(2, 2, 2, Some(false)), Xf(4, 4, 1, Some(true))]

  /** Legend slot i: a solid fill in palette colour i, a boxed format over it, and a DXF in the same colour. */
  function LegendFill(i: nat): Fill { Solid(SwatchColor(i)) }
  function LegendXf(i: nat): Xf { Xf(0, i + 5, 1, None) }
  function LegendDxf(i: nat): Dxf { DxfFill(SwatchColor(i)) }

  /** The fills after the loop has run for slots 0 .. n - 1. */
  function StyleFills(n: nat): (fills: seq<Fill>)
    ensures |fills| == 5 + n
  {
    if n == 0 then BaseFills else StyleFills(n - 1) + [LegendFill(n - 1)]
  }

  function StyleXfs(n: nat): (xfs: seq<Xf>)
    ensures |xfs| == 6 + n
  {
    if n == 0 then BaseXfs else StyleXfs(n - 1) + [LegendXf(n - 1)]
  }

  function StyleDxfs(n: nat): (dxfs: seq<Dxf>)
    ensures |dxfs| == n
  {
    if n == 0 then [] else StyleDxfs(n - 1) + [LegendDxf(n - 1)]
  }

  function FillsXml(fs: seq<Fill>): string {
    if fs == [] then "" else FillXml(fs[0]) + FillsXml(fs[1..])
  }

  function XfsXml(xs: seq<Xf>): string {
    if xs == [] then "" else XfXml(xs[0]) + XfsXml(xs[1..])
  }

  function DxfsXml(ds: seq<Dxf>): string {
    if ds == [] then "" else DxfXml(ds[0]) + DxfsXml(ds[1..])
  }

  /** A list element whose count attribute is the number of entries it holds. */
  function CountedXml(tag: string, count: nat, body: string): string {
    "<" + tag + " count=\"" + NatToString(count) + "\">" + body + "</" + tag + ">"
  }

  /** The styles part from its tables. */
  function StyleSheetXml(fills: seq<Fill>, xfs: seq<Xf>, dxfs: seq<Dxf>): string {
    "<?xml version=\"1.0\" encoding=\"UTF-8\"?>\n" +
    "<styleSheet xmlns=\"http://schemas.openxmlformats.org/spreadsheetml/2006/main\">\n  " +
    CountedXml("fonts", |Fonts|, Concat(Fonts)) + "\n  " +
    CountedXml("fills", |fills|, FillsXml(fills)) + "\n  " +
    CountedXml("borders", |Borders|, Concat(Borders)) + "\n  " +
    "<cellStyleXfs count=\"1\"><xf numFmtId=\"0\" fontId=\"0\" fillId=\"0\" borderId=\"0\"/></cellStyleXfs>\n  " +
    CountedXml("cellXfs", |xfs|, XfsXml(xfs)) + "\n  " +
    CountedXml("dxfs", |dxfs|, DxfsXml(dxfs)) + "\n</styleSheet>"
  }

  /** getStylesXML: the base tables, then one fill, one cell format and one DXF per legend slot. */
  method GetStylesXml(eventRows: nat) returns (xml: string)
    ensures xml == StyleSheetXml(StyleFills(eventRows), StyleXfs(eventRows), StyleDxfs(eventRows))
  {
    var fills := BaseFills;
    var i := 0;
    while i < eventRows
      invariant 0 <= i <= eventRows && fills == StyleFills(i)
    {
      fills := fills + [Solid(SwatchColor(i))];
      i := i + 1;
    }
    assert fills == StyleFills(eventRows);
    var cellXfs := BaseXfs;
    i := 0;
    while i < eventRows
      invariant 0 <= i <= eventRows && cellXfs == StyleXfs(i)
    {
      cellXfs := cellXfs + [Xf(0, i + 5, 1, None)];
      i := i + 1;
    }
    assert cellXfs == StyleXfs(eventRows);
    var dxfs := [];
    i := 0;
    while i < eventRows
      invariant 0 <= i <= eventRows && dxfs == StyleDxfs(i)
    {
      dxfs := dxfs + [DxfFill(SwatchColor(i))];
      i := i + 1;
    }
    assert dxfs == StyleDxfs(eventRows);
    xml := StyleSheetXml(fills, cellXfs, dxfs);
  }

  // ---------------------------------------------------------------------
  // The positional contract
  // ---------------------------------------------------------------------

  lemma {:induction false} StyleFillsAt(n: nat, k: nat)
    requires k < 5 + n
    ensures StyleFills(n)[k] == if k < 5 then BaseFills[k] else LegendFill(k - 5)
  {
    if n > 0 && k < 5 + n - 1 {
      StyleFillsAt(n - 1, k);
    }
  }

  lemma {:induction false} StyleXfsAt(n: nat, k: nat)
    requires k < 6 + n
    ensures StyleXfs(n)[k] == if k < 6 then BaseXfs[k] else LegendXf(k - 6)
  {
    if n > 0 && k < 6 + n - 1 {
      StyleXfsAt(n - 1, k);
    }
  }

  lemma {:induction false} StyleDxfsAt(n: nat, k: nat)
    requires k < n
    ensures StyleDxfs(n)[k] == LegendDxf(k)
  {
    if k < n - 1 {
      StyleDxfsAt(n - 1, k);
    }
  }

  /**
   * Legend slot i (i < n) owns cell format 6 + i, which fills with fill
   * 5 + i, and DXF i; that fill and that DXF carry the same palette colour.
   */
  lemma LegendSlotStyles(n: nat, i: nat)
    requires i < n
    ensures 6 + i < |StyleXfs(n)| && StyleXfs(n)[6 + i] == Xf(0, 5 + i, 1, None)
    ensures 5 + i < |StyleFills(n)| && StyleFills(n)[5 + i] == Solid(SwatchColor(i))
    ensures i < |StyleDxfs(n)| && StyleDxfs(n)[i] == DxfFill(SwatchColor(i))
  {
    StyleXfsAt(n, 6 + i);
    StyleFillsAt(n, 5 + i);
    StyleDxfsAt(n, i);
  }

  /** Every cell format refers to a font, a fill and a border the table defines. */
  lemma XfReferencesDefined(n: nat, k: nat)
    requires k < |StyleXfs(n)|
    ensures StyleXfs(n)[k].fontId < |Fonts|
    ensures StyleXfs(n)[k].fillId < |StyleFills(n)|
    ensures StyleXfs(n)[k].borderId < |Borders|
  {
    StyleXfsAt(n, k);
  }

  // ---------------------------------------------------------------------
  // Reading the entries back
  // ---------------------------------------------------------------------

  /** A numeric attribute ` name="digits"` at the head of s. */
  function ReadNatAttr(s: string, name: string): Option<(nat, string)> {
    var at :- ReadOptAttr(s, name);
    var tok :- at.0;
    var n :- ReadDecimal(tok);
    Some((n, at.1))
  }

  lemma ReadNatAttrOf(name: string, n: nat, rest: string)
    ensures ReadNatAttr(NatAttr(name, n) + rest, name) == Some((n, rest))
  {
    var v := NatToString(n);
    assert '"' !in v;
    assert NatAttr(name, n) + rest == " " + name + "=\"" + v + "\"" + rest;
    ReadOptAttrPresent(name, v, rest);
    ReadDecimalNat(n);
  }

  function ReadAlignment(s: string): Option<Option<bool>> {
    match Expect(s, "><alignment")
    case Some(a) =>
      var b :- Expect(a, Centered);
      if b == "/></xf>" then Some(Some(false))
      else if b == " wrapText=\"1\"/></xf>" then Some(Some(true))
      else None
    case None => if s == "/>" then Some(None) else None
  }

  lemma ReadAlignmentOf(centered: Option<bool>)
    ensures ReadAlignment(AlignmentXml(centered)) == Some(centered)
  {
    match centered
    case None =>
    case Some(wrap) =>
      var tail := if wrap then " wrapText=\"1\"/></xf>" else "/></xf>";
      ExpectConcat("><alignment", Centered + tail);
      ExpectConcat(Centered, tail);
  }

  function ReadXf(s: string): Option<Xf> {
    var a :- Expect(s, "<xf numFmtId=\"0\"");
    var font :- ReadNatAttr(a, "fontId");
    var fill :- ReadNatAttr(font.1, "fillId");
    var border :- ReadNatAttr(fill.1, "borderId");
    var c :- Expect(border.1, " xfId=\"0\"");
    var centered :- ReadAlignment(c);
    Some(Xf(font.0, fill.0, border.0, centered))
  }

  /** Reading a serialised cell format back gives its font, fill, border and alignment. */
  lemma XfXmlRoundTrip(x: Xf)
    ensures ReadXf(XfXml(x)) == Some(x)
  {
    var al := AlignmentXml(x.centered);
    var r3 := " xfId=\"0\"" + al;
    var r2 := NatAttr("borderId", x.borderId) + r3;
    var r1 := NatAttr("fillId", x.fillId) + r2;
    var r0 := NatAttr("fontId", x.fontId) + r1;
    ExpectConcat("<xf numFmtId=\"0\"", r0);
    ReadNatAttrOf("fontId", x.fontId, r1);
    ReadNatAttrOf("fillId", x.fillId, r2);
    ReadNatAttrOf("borderId", x.borderId, r3);
    ExpectConcat(" xfId=\"0\"", al);
    ReadAlignmentOf(x.centered);
  }

  function ReadFill(s: string): Option<Fill> {
    var a :- Expect(s, FillOpen);
    var (kind, b) := ReadUntil(a, '"');
    if kind == "none" then (if b == "\"/></fill>" then Some(NoFill) else None)
    else if kind == "gray125" then (if b == "\"/></fill>" then Some(Gray125) else None)
    else if kind == "solid" then
      var c :- Expect(b, "\"><fgColor rgb=\"");
      var (rgb, d) := ReadUntil(c, '"');
      if d == "\"" + SolidClose then Some(Solid(rgb)) else None
    else None
  }

  /** Reading a serialised fill back gives the fill, its colour included. */
  lemma FillXmlRoundTrip(f: Fill)
    requires f.Solid? ==> '"' !in f.rgb
    ensures ReadFill(FillXml(f)) == Some(f)
  {
    match f
    case NoFill => PlainFillRoundTrip("none");
    case Gray125 => PlainFillRoundTrip("gray125");
    case Solid(rgb) => SolidFillRoundTrip(rgb);
  }

  lemma PlainFillRoundTrip(kind: string)
    requires kind == "none" || kind == "gray125"
    ensures ReadFill(FillOpen + (kind + "\"/></fill>")) == Some(if kind == "none" then NoFill else Gray125)
  {
    ExpectConcat(FillOpen, kind + "\"/></fill>");
    ReadUntilConcat(kind, "\"/></fill>", '"');
  }

  lemma SolidFillRoundTrip(rgb: string)
    requires '"' !in rgb
    ensures ReadFill(FillXml(Solid(rgb))) == Some(Solid(rgb))
  {
    var tail := "\"" + SolidClose;
    var b := "\"><fgColor rgb=\"" + (rgb + tail);
    ExpectConcat(FillOpen, "solid" + b);
    ReadUntilConcat("solid", b, '"');
    ExpectConcat("\"><fgColor rgb=\"", rgb + tail);
    ReadUntilConcat(rgb, tail, '"');
  }

  function ReadDxf(s: string): Option<Dxf> {
    var a :- Expect(s, "<dxf><fill><patternFill patternType=\"solid\"><bgColor rgb=\"");
    var (rgb, d) := ReadUntil(a, '"');
    if d == "\"/></patternFill></fill></dxf>" then Some(DxfFill(rgb)) else None
  }

  /** Reading a serialised DXF back gives its background colour. */
  lemma DxfXmlRoundTrip(d: Dxf)
    requires '"' !in d.bg
    ensures ReadDxf(DxfXml(d)) == Some(d)
  {
    var open := "<dxf><fill><patternFill patternType=\"solid\"><bgColor rgb=\"";
    var close := "\"/></patternFill></fill></dxf>";
    assert DxfXml(d) == open + (d.bg + close);
    ExpectConcat(open, d.bg + close);
    ReadUntilConcat(d.bg, close, '"');
  }

  /**
   * What a reader of the styles part finds for legend slot i: cell format
   * 6 + i names fill 5 + i, and that fill and DXF i both read back as palette
   * colour i.
   */
  lemma LegendSlotReadBack(n: nat, i: nat)
    requires i < n
    ensures ReadXf(XfXml(StyleXfs(n)[6 + i])) == Some(Xf(0, 5 + i, 1, None))
    ensures ReadFill(FillXml(StyleFills(n)[5 + i])) == Some(Solid(SwatchColor(i)))
    ensures ReadDxf(DxfXml(StyleDxfs(n)[i])) == Some(DxfFill(SwatchColor(i)))
  {
    LegendSlotStyles(n, i);
    XfXmlRoundTrip(StyleXfs(n)[6 + i]);
    FillXmlRoundTrip(StyleFills(n)[5 + i]);
    DxfXmlRoundTrip(StyleDxfs(n)[i]);
  }
}
