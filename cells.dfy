/**
 * The cell and row model of script.js: ExcelCell (a value: it is built once
 * and never changed), ExcelRow and the calendar's UniqueExcelRow (objects
 * whose cell collections the layout fills in place).
 */
module Cells {
  import opened Wrappers
  import opened XmlText

  // ---------------------------------------------------------------------
  // ExcelCell
  // ---------------------------------------------------------------------

  /**
   * A cell value: Missing stands for JavaScript's null and undefined, Text
   * for a string, Number for a number (the calendar passes day numbers).
   */
  datatype CellValue = Missing | Text(s: string) | Number(n: int)

  /** The "no value" test of ExcelCell.toXML: '', null or undefined. */
  predicate IsEmptyValue(v: CellValue) {
    v.Missing? || v == Text("")
  }

  /** String(value), the coercion escapeXml and `${value}` apply. */
  function ValueText(v: CellValue): string {
    match v
    case Missing => ""
    case Text(s) => s
    case Number(n) => IntToString(n)
  }

  /**
   * One cell: its column letter, its row number, its value, its type
   * attribute (`kind`, "inlineStr" unless the caller asks otherwise), its
   * style index (0 = default) and the merge-across hint the constructor
   * stores and nothing reads.
   */
  datatype Cell = Cell(col: char, row: nat, value: CellValue, kind: string, style: nat, mergeAcross: nat)

  /**
   * The ExcelCell constructor: an empty or absent type becomes "inlineStr"
   * (`opts.type || 'inlineStr'`); style 0 and an absent style coincide
   * (`opts.style || 0`).
   */
  function NewCell(col: char, row: nat, value: CellValue, kind: string, style: nat): (c: Cell)
    ensures c.col == col && c.row == row && c.value == value && c.style == style
    ensures c.kind != ""
    ensures kind != "" ==> c.kind == kind
    ensures kind == "" ==> c.kind == "inlineStr"
  {
    Cell(col, row, value, if kind == "" then "inlineStr" else kind, style, 0)
  }

  /** The `ref` getter: column letter followed by row number, e.g. "D3". */
  function Ref(c: Cell): string {
    [c.col] + NatToString(c.row)
  }

  function StyleAttr(style: nat): string {
    if style != 0 then " s=\"" + NatToString(style) + "\"" else ""
  }

  function TypeAttr(c: Cell): string {
    if !IsEmptyValue(c.value) then
      if c.kind == "n" then " t=\"n\"" else " t=\"" + c.kind + "\""
    else if c.kind != "" && c.kind != "inlineStr" then " t=\"" + c.kind + "\""
    else ""
  }

  function ValueNodeXml(c: Cell): string {
    if IsEmptyValue(c.value) then ""
    else if c.kind == "n" then "<v>" + ValueText(c.value) + "</v>"
    else "<is><t>" + EscapeXml(ValueText(c.value)) + "</t></is>"
  }

  /** ExcelCell.toXML. */
  function CellXml(c: Cell): string {
    "<c " + "r=\"" + Ref(c) + "\"" + StyleAttr(c.style) + TypeAttr(c) + ">" + ValueNodeXml(c) + "</c>"
  }

  // What a reader of a `<c>` element sees.

  datatype ValueNode = PlainValue(text: string) | InlineString(text: string)

  datatype CellView = CellView(ref: string, style: Option<nat>, kind: Option<string>, node: Option<ValueNode>)

  function ReadValueNode(s: string): Option<(Option<ValueNode>, string)> {
    if "<v>" <= s then
      var (t, rest) := ReadUntil(s[3..], '<');
      var after :- Expect(rest, "</v>");
      Some((Some(PlainValue(t)), after))
    else if "<is><t>" <= s then
      var (t, rest) := ReadUntil(s[7..], '<');
      var after :- Expect(rest, "</t></is>");
      Some((Some(InlineString(UnescapeXml(t))), after))
    else
      Some((None, s))
  }

  /** The attributes after the reference, the value node and the closing tag. */
  function ReadCellTail(b: string): Option<(Option<nat>, Option<string>, Option<ValueNode>)> {
    var sa :- ReadOptAttr(b, "s");
    var style :- if sa.0.None? then Some(None) else
                   (match ReadDecimal(sa.0.value) case Some(n) => Some(Some(n)) case None => None);
    var ta :- ReadOptAttr(sa.1, "t");
    var b4 :- Expect(ta.1, ">");
    var vn :- ReadValueNode(b4);
    var b6 :- Expect(vn.1, "</c>");
    if b6 == [] then Some((style, ta.0, vn.0)) else None
  }

  /** Parses one serialised cell element: its reference, attributes and value node. */
  function ReadCell(x: string): Option<CellView> {
    var a :- Expect(x, "<c r=\"");
    var (ref, b) := ReadUntil(a, '"');
    var b1 :- Expect(b, "\"");
    var t :- ReadCellTail(b1);
    Some(CellView(ref, t.0, t.1, t.2))
  }

  /**
   * What ExcelCell.toXML promises a reader: the reference always; `s` exactly
   * when the style is not 0; for a non-empty value a `t` attribute and either
   * a raw `<v>` (type "n") or an escaped inline string; for an empty value no
   * value node, and `t` only when the type is set and is not "inlineStr".
   */
  function View(c: Cell): CellView {
    CellView(
      Ref(c),
      if c.style != 0 then Some(c.style) else None,
      if !IsEmptyValue(c.value) || (c.kind != "" && c.kind != "inlineStr") then Some(c.kind) else None,
      if IsEmptyValue(c.value) then None
      else if c.kind == "n" then Some(PlainValue(ValueText(c.value)))
      else Some(InlineString(ValueText(c.value))))
  }

  /**
   * The cells a reader can take apart unambiguously: the attribute values
   * hold no quote and a raw numeric value holds no '<'.
   */
  predicate Readable(c: Cell) {
    c.col != '"' && '"' !in c.kind &&
    (c.kind == "n" && !IsEmptyValue(c.value) ==> '<' !in ValueText(c.value))
  }

  lemma ReadValueNodeOf(c: Cell, rest: string)
    requires Readable(c)
    requires rest == "</c>"
    ensures ReadValueNode(ValueNodeXml(c) + rest) == Some((View(c).node, rest))
  {
    var s := ValueNodeXml(c) + rest;
    if IsEmptyValue(c.value) {
      assert s == rest;
      assert !("<v>" <= s) by { assert s[1] != "<v>"[1]; }
      assert !("<is><t>" <= s) by { assert s[1] != "<is><t>"[1]; }
    } else if c.kind == "n" {
      var t := ValueText(c.value);
      assert s == "<v>" + (t + ("</v>" + rest));
      ExpectConcat("<v>", t + ("</v>" + rest));
      ReadUntilConcat(t, "</v>" + rest, '<');
      ExpectConcat("</v>", rest);
    } else {
      var t := EscapeXml(ValueText(c.value));
      assert '<' !in t;
      assert s == "<is><t>" + (t + ("</t></is>" + rest));
      assert !("<v>" <= s) by { assert s[1] != "<v>"[1]; }
      ExpectConcat("<is><t>", t + ("</t></is>" + rest));
      ReadUntilConcat(t, "</t></is>" + rest, '<');
      ExpectConcat("</t></is>", rest);
      EscapeXmlRoundTrip(ValueText(c.value));
    }
  }

  lemma ReadTypeAttrOf(c: Cell, rest: string)
    requires Readable(c)
    requires rest == ">" + ValueNodeXml(c) + "</c>"
    ensures ReadOptAttr(TypeAttr(c) + rest, "t") == Some((View(c).kind, rest))
  {
    if TypeAttr(c) == "" {
      assert TypeAttr(c) + rest == rest;
      assert !(" t=\"" <= rest) by { assert rest[0] != ' '; }
    } else if !IsEmptyValue(c.value) && c.kind == "n" {
      assert TypeAttr(c) + rest == " " + "t" + "=\"" + "n" + "\"" + rest;
      ReadOptAttrPresent("t", "n", rest);
    } else {
      assert TypeAttr(c) + rest == " " + "t" + "=\"" + c.kind + "\"" + rest;
      ReadOptAttrPresent("t", c.kind, rest);
    }
  }

  lemma ReadStyleAttrOf(c: Cell, rest: string)
    requires Readable(c)
    requires rest == TypeAttr(c) + ">" + ValueNodeXml(c) + "</c>"
    ensures ReadOptAttr(StyleAttr(c.style) + rest, "s") ==
            Some((if c.style != 0 then Some(NatToString(c.style)) else None, rest))
  {
    if c.style == 0 {
      assert StyleAttr(c.style) + rest == rest;
      if TypeAttr(c) == "" {
        assert rest[0] == '>';
      } else {
        assert rest[1] == TypeAttr(c)[1] == 't';
      }
      ReadOptAttrAbsent(rest, "s");
    } else {
      var v := NatToString(c.style);
      assert '"' !in v;
      assert StyleAttr(c.style) + rest == " " + "s" + "=\"" + v + "\"" + rest;
      ReadOptAttrPresent("s", v, rest);
    }
  }

  lemma ReadCellTailOf(c: Cell)
    requires Readable(c)
    ensures ReadCellTail(StyleAttr(c.style) + TypeAttr(c) + ">" + ValueNodeXml(c) + "</c>") ==
            Some((View(c).style, View(c).kind, View(c).node))
  {
    var close := "</c>";
    var vrest := ValueNodeXml(c) + close;
    var trest := ">" + vrest;
    var srest := TypeAttr(c) + trest;
    assert StyleAttr(c.style) + TypeAttr(c) + ">" + ValueNodeXml(c) + "</c>" == StyleAttr(c.style) + srest;
    assert srest == TypeAttr(c) + ">" + ValueNodeXml(c) + "</c>";
    ReadStyleAttrOf(c, srest);
    if c.style != 0 {
      ReadDecimalNat(c.style);
    }
    assert trest == ">" + ValueNodeXml(c) + "</c>";
    ReadTypeAttrOf(c, trest);
    ExpectConcat(">", vrest);
    ReadValueNodeOf(c, close);
    ExpectConcat(close, []);
    assert close + [] == close;
  }

  /**
   * Reading a serialised cell back recovers exactly what View promises:
   * the reference, the style, the type attribute and the (unescaped) value.
   */
  lemma CellXmlRoundTrip(c: Cell)
    requires Readable(c)
    ensures ReadCell(CellXml(c)) == Some(View(c))
  {
    var arest := StyleAttr(c.style) + TypeAttr(c) + ">" + ValueNodeXml(c) + "</c>";
    var ref := Ref(c);
    assert '"' !in ref by {
      assert ref == [c.col] + NatToString(c.row);
    }
    var x := CellXml(c);
    assert x == "<c r=\"" + (ref + ("\"" + arest));
    ExpectConcat("<c r=\"", ref + ("\"" + arest));
    assert Expect(x, "<c r=\"") == Some(ref + ("\"" + arest));
    ReadUntilConcat(ref, "\"" + arest, '"');
    ExpectConcat("\"", arest);
    ReadCellTailOf(c);
    var t := ReadCellTail(arest).value;
    assert ReadCell(x) == Some(CellView(ref, t.0, t.1, t.2));
  }

  // ---------------------------------------------------------------------
  // ExcelRow: a row whose cells serialise in insertion order
  // ---------------------------------------------------------------------

  function CellsXml(cells: seq<Cell>): (r: string)
    ensures cells == [] ==> r == ""
  {
    if cells == [] then "" else CellXml(cells[0]) + CellsXml(cells[1..])
  }

  lemma {:induction false} CellsXmlAppend(cells: seq<Cell>, c: Cell)
    ensures CellsXml(cells + [c]) == CellsXml(cells) + CellXml(c)
  {
    if cells == [] {
      assert cells + [c] == [c];
    } else {
      assert (cells + [c])[1..] == cells[1..] + [c];
      CellsXmlAppend(cells[1..], c);
    }
  }

  class ExcelRow {
    const r: nat
    var cells: seq<Cell>

    constructor (r: nat)
      ensures this.r == r && cells == []
    {
      this.r := r;
      cells := [];
    }

    /** Appends; a second cell at the same column is kept as well. */
    method AddCell(cell: Cell)
      modifies this
      ensures cells == old(cells) + [cell]
    {
      cells := cells + [cell];
    }

    function ToXml(): string
      reads this
    {
      "<row r=\"" + NatToString(r) + "\">" + CellsXml(cells) + "</row>"
    }
  }

  /** Adding a cell to an ExcelRow puts its markup last in the row. */
  lemma ExcelRowAppendOrder(r: nat, cells: seq<Cell>, c: Cell)
    ensures "<row r=\"" + NatToString(r) + "\">" + CellsXml(cells + [c]) + "</row>" ==
            "<row r=\"" + NatToString(r) + "\">" + CellsXml(cells) + CellXml(c) + "</row>"
  {
    CellsXmlAppend(cells, c);
    AppendInside("<row r=\"" + NatToString(r) + "\">", CellsXml(cells + [c]), CellsXml(cells), CellXml(c), "</row>");
  }

  /** Replacing the middle x of h + x + t by its two halves a + b. */
  lemma AppendInside(h: string, x: string, a: string, b: string, t: string)
    requires x == a + b
    ensures h + x + t == h + a + b + t
  {
  }

  // ---------------------------------------------------------------------
  // UniqueExcelRow: one cell per column, serialised by column
  // ---------------------------------------------------------------------

  /** colToIndex: 'A' is 1, 'B' is 2, ... */
  function ColToIndex(col: char): int {
    (col as int) - 64
  }

  /** The cell map's invariant: each cell is stored under its own column. */
  predicate KeyedByColumn(m: map<char, Cell>) {
    forall k :: k in m ==> m[k].col == k
  }

  lemma MinColumnExists(ks: set<char>)
    requires ks != {}
    ensures exists k :: k in ks && forall j :: j in ks ==> ColToIndex(k) <= ColToIndex(j)
  {
    var x :| x in ks;
    if ks != {x} {
      MinColumnExists(ks - {x});
      var k :| k in ks - {x} && forall j :: j in ks - {x} ==> ColToIndex(k) <= ColToIndex(j);
      if ColToIndex(x) < ColToIndex(k) {
        assert forall j :: j in ks ==> ColToIndex(x) <= ColToIndex(j);
      } else {
        assert forall j :: j in ks ==> ColToIndex(k) <= ColToIndex(j);
      }
    } else {
      assert forall j :: j in ks ==> ColToIndex(x) <= ColToIndex(j);
    }
  }

  function FirstColumn(ks: set<char>): (k: char)
    requires ks != {}
    ensures k in ks && forall j :: j in ks ==> ColToIndex(k) <= ColToIndex(j)
  {
    MinColumnExists(ks);
    var k :| k in ks && forall j :: j in ks ==> ColToIndex(k) <= ColToIndex(j);
    k
  }

  /** The columns of a row in the order of the comparator colToIndex(a) - colToIndex(b). */
  function SortedColumns(ks: set<char>): (s: seq<char>)
    ensures |s| == |ks|
    ensures forall i :: 0 <= i < |s| ==> s[i] in ks
    ensures forall k :: k in ks ==> k in s
    ensures forall i, j :: 0 <= i < j < |s| ==> ColToIndex(s[i]) < ColToIndex(s[j])
    decreases |ks|
  {
    if ks == {} then []
    else
      var k := FirstColumn(ks);
      var rest := SortedColumns(ks - {k});
      assert |ks - {k}| == |ks| - 1 by {
        assert ks == (ks - {k}) + {k};
      }
      SortedColumnsCons(ks, k, rest);
      [k] + rest
  }

  lemma SortedColumnsCons(ks: set<char>, k: char, rest: seq<char>)
    requires k in ks && forall j :: j in ks ==> ColToIndex(k) <= ColToIndex(j)
    requires forall i :: 0 <= i < |rest| ==> rest[i] in ks - {k}
    requires forall j :: j in ks - {k} ==> j in rest
    requires forall i, j :: 0 <= i < j < |rest| ==> ColToIndex(rest[i]) < ColToIndex(rest[j])
    ensures forall i :: 0 <= i < |[k] + rest| ==> ([k] + rest)[i] in ks
    ensures forall j :: j in ks ==> j in [k] + rest
    ensures forall i, j :: 0 <= i < j < |[k] + rest| ==> ColToIndex(([k] + rest)[i]) < ColToIndex(([k] + rest)[j])
  {
    var s := [k] + rest;
    forall j | j in ks ensures j in s {
      if j != k {
        assert j in ks - {k};
        assert j in rest;
        var i :| 0 <= i < |rest| && rest[i] == j;
        assert s[i + 1] == j;
      }
    }
    forall i, j | 0 <= i < j < |s| ensures ColToIndex(s[i]) < ColToIndex(s[j]) {
      assert s[j] == rest[j - 1];
      if i > 0 {
        assert s[i] == rest[i - 1];
      } else {
        assert rest[j - 1] in ks && rest[j - 1] != k;
      }
    }
  }

  /** `Array.from(cellMap.values()).sort(...)`. */
  function OrderedCells(m: map<char, Cell>): seq<Cell> {
    var cols := SortedColumns(m.Keys);
    seq(|cols|, i requires 0 <= i < |cols| => m[cols[i]])
  }

  /**
   * The serialised order of a UniqueExcelRow: one entry per stored column,
   * every stored cell present, columns strictly ascending by colToIndex.
   */
  lemma OrderedCellsSpec(m: map<char, Cell>)
    requires KeyedByColumn(m)
    ensures |OrderedCells(m)| == |m|
    ensures forall i :: 0 <= i < |OrderedCells(m)| ==> OrderedCells(m)[i] in m.Values
    ensures forall k :: k in m ==> m[k] in OrderedCells(m)
    ensures forall i, j :: 0 <= i < j < |OrderedCells(m)| ==>
              ColToIndex(OrderedCells(m)[i].col) < ColToIndex(OrderedCells(m)[j].col)
  {
    var cols := SortedColumns(m.Keys);
    var s := OrderedCells(m);
    forall k | k in m ensures m[k] in s {
      var i :| 0 <= i < |cols| && cols[i] == k;
      assert s[i] == m[k];
    }
  }

  /** UniqueExcelRow.toXML (note the single quotes around the row number). */
  function UniqueRowXml(r: nat, m: map<char, Cell>): string {
    "<row r='" + NatToString(r) + "'>" + CellsXml(OrderedCells(m)) + "</row>"
  }

  class UniqueExcelRow {
    const r: nat
    /** Inherited from ExcelRow; UniqueExcelRow.addCell never fills it. */
    var cells: seq<Cell>
    var cellMap: map<char, Cell>

    ghost predicate Valid()
      reads this
    {
      KeyedByColumn(cellMap)
    }

    constructor (r: nat)
      ensures this.r == r && cells == [] && cellMap == map[]
      ensures Valid()
    {
      this.r := r;
      cells := [];
      cellMap := map[];
    }

    /** Stores the cell under its column, replacing an earlier one there. */
    method AddCell(cell: Cell)
      requires Valid()
      modifies this`cellMap
      ensures Valid()
      ensures cellMap == old(cellMap)[cell.col := cell]
    {
      cellMap := cellMap[cell.col := cell];
    }

    function ToXml(): string
      reads this`cellMap
    {
      UniqueRowXml(r, cellMap)
    }
  }

  // A sequence of addCell calls on one row, and who wins.

  /** The cell map after calling addCell with each of cs in turn. */
  function AddCells(m: map<char, Cell>, cs: seq<Cell>): map<char, Cell>
    decreases |cs|
  {
    if cs == [] then m else AddCells(m[cs[0].col := cs[0]], cs[1..])
  }

  /** The last of cs in column col, if any. */
  function LastInColumn(cs: seq<Cell>, col: char): Option<Cell> {
    if cs == [] then None
    else if cs[|cs| - 1].col == col then Some(cs[|cs| - 1])
    else LastInColumn(cs[..|cs| - 1], col)
  }

  lemma {:induction false} AddCellsSnoc(m: map<char, Cell>, cs: seq<Cell>, c: Cell)
    ensures AddCells(m, cs + [c]) == AddCells(m, cs)[c.col := c]
    decreases |cs|
  {
    if cs == [] {
      assert cs + [c] == [c];
    } else {
      assert (cs + [c])[0] == cs[0];
      assert (cs + [c])[1..] == cs[1..] + [c];
      AddCellsSnoc(m[cs[0].col := cs[0]], cs[1..], c);
    }
  }

  /** Last write wins: each column holds the last cell added there, or what it held before. */
  lemma {:induction false} AddCellsLastWins(m: map<char, Cell>, cs: seq<Cell>, col: char)
    ensures col in AddCells(m, cs) <==> col in m || LastInColumn(cs, col).Some?
    ensures LastInColumn(cs, col).Some? ==> AddCells(m, cs)[col] == LastInColumn(cs, col).value
    ensures LastInColumn(cs, col).None? && col in m ==> AddCells(m, cs)[col] == m[col]
  {
    if cs != [] {
      var init, c := cs[..|cs| - 1], cs[|cs| - 1];
      assert cs == init + [c];
      AddCellsSnoc(m, init, c);
      AddCellsLastWins(m, init, col);
    }
  }

  /** AddCells keeps every cell under its own column. */
  lemma {:induction false} AddCellsKeyed(m: map<char, Cell>, cs: seq<Cell>)
    requires KeyedByColumn(m)
    ensures KeyedByColumn(AddCells(m, cs))
    decreases |cs|
  {
    if cs != [] {
      AddCellsKeyed(m[cs[0].col := cs[0]], cs[1..]);
    }
  }
}
