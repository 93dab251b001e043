/**
 * ConditionalFormattingRule and ExcelSheet of script.js: a rule is a value
 * serialised to one `<cfRule>`; a sheet is an object whose row, merge,
 * column and rule lists are filled in place and serialised in one go.
 */
module Sheets {
  import opened Wrappers
  import opened XmlText
  import opened Cells

  // ---------------------------------------------------------------------
  // ConditionalFormattingRule
  // ---------------------------------------------------------------------

  /**
   * One rule: the range it applies to, its formula, the inline fill colour
   * used when no DXF index is given, its priority, whether it is an
   * `expression` rule (otherwise `cellIs` equal), and the optional DXF index
   * (JavaScript null is None; 0 is a real index).
   */
  datatype CfRule = CfRule(sqref: string, formula: string, fillColor: string, priority: nat,
                           useExpression: bool, dxfId: Option<nat>)

  function DxfAttr(r: CfRule): string {
    if r.dxfId.Some? then " dxfId=\"" + NatToString(r.dxfId.value) + "\"" else ""
  }

  function InlineDxfXml(r: CfRule): string {
    if r.dxfId.Some? then ""
    else "<dxf>" + "<fill><patternFill patternType=\"solid\"><fgColor rgb=\"" + r.fillColor + "\"/></patternFill></fill></dxf>"
  }

  /** The formula and what follows it up to the closing tag. */
  function FormulaXml(r: CfRule): string {
    "><formula>" + EscapeXml(r.formula) + "</formula>" + InlineDxfXml(r) + "</cfRule>"
  }

  /** ConditionalFormattingRule.toXML: `expression` or `cellIs equal`, then priority, DXF and formula. */
  function RuleXml(r: CfRule): string {
    RuleHeadXml(r) + " priority=\"" + NatToString(r.priority) + "\"" + DxfAttr(r) + FormulaXml(r)
  }

  function RuleHeadXml(r: CfRule): string {
    if r.useExpression then "<cfRule type=\"expression\"" else "<cfRule type=\"cellIs\" operator=\"equal\""
  }

  // What a reader of a `<cfRule>` element sees.

  datatype RuleView = RuleView(kind: string, priority: nat, dxfId: Option<nat>, formula: string,
                               inlineFill: Option<string>)

  function ReadInlineDxf(s: string): Option<(Option<string>, string)> {
    match Expect(s, "<dxf>")
    case None => Some((None, s))
    case Some(a0) =>
      var a :- Expect(a0, "<fill><patternFill patternType=\"solid\"><fgColor rgb=\"");
      var (color, rest) := ReadUntil(a, '"');
      var after :- Expect(rest, "\"/></patternFill></fill></dxf>");
      Some((Some(color), after))
  }

  /** The formula element and the optional inline DXF that ends a rule. */
  function ReadFormula(s: string): Option<(string, Option<string>)> {
    var c :- Expect(s, "><formula>");
    var (f, d) := ReadUntil(c, '<');
    var d1 :- Expect(d, "</formula>");
    var fill :- ReadInlineDxf(d1);
    var e :- Expect(fill.1, "</cfRule>");
    if e == [] then Some((UnescapeXml(f), fill.0)) else None
  }

  /** Everything after the priority attribute of a rule. */
  function ReadRuleTail(s: string): Option<(Option<nat>, string, Option<string>)> {
    var da :- ReadOptAttr(s, "dxfId");
    var dxf :- if da.0.None? then Some(None) else
                 (match ReadDecimal(da.0.value) case Some(n) => Some(Some(n)) case None => None);
    var fm :- ReadFormula(da.1);
    Some((dxf, fm.0, fm.1))
  }

  /** Parses one serialised rule: its type, priority, DXF reference, formula and inline fill. */
  function ReadRuleHead(x: string): Option<(string, string)> {
    var a :- Expect(x, "<cfRule type=\"");
    var (kind, b) := ReadUntil(a, '"');
    var b1 :- Expect(b, "\"");
    var b2 :- if kind == "cellIs" then Expect(b1, " operator=\"equal\"") else Some(b1);
    Some((kind, b2))
  }

  function ReadRule(x: string): Option<RuleView> {
    var h :- ReadRuleHead(x);
    var kind, b2 := h.0, h.1;
    var pa :- ReadOptAttr(b2, "priority");
    var ptok :- pa.0;
    var p :- ReadDecimal(ptok);
    var t :- ReadRuleTail(pa.1);
    Some(RuleView(kind, p, t.0, t.1, t.2))
  }

  /**
   * What a rule promises a reader: its type, its priority, a dxfId exactly
   * when one is set (0 included), otherwise an inline DXF with the rule's
   * fill colour, and the formula text.
   */
  function RuleViewOf(r: CfRule): RuleView {
    RuleView(if r.useExpression then "expression" else "cellIs", r.priority, r.dxfId, r.formula,
             if r.dxfId.None? then Some(r.fillColor) else None)
  }

  lemma ReadInlineDxfOf(r: CfRule, rest: string)
    requires '"' !in r.fillColor
    requires rest == "</cfRule>"
    ensures ReadInlineDxf(InlineDxfXml(r) + rest) == Some((RuleViewOf(r).inlineFill, rest))
  {
    var open := "<fill><patternFill patternType=\"solid\"><fgColor rgb=\"";
    var close := "\"/></patternFill></fill></dxf>";
    var s := InlineDxfXml(r) + rest;
    if r.dxfId.Some? {
      assert s == rest;
      ExpectMismatch(s, "<dxf>", 1);
    } else {
      assert s == "<dxf>" + (open + (r.fillColor + (close + rest)));
      ExpectConcat("<dxf>", open + (r.fillColor + (close + rest)));
      ExpectConcat(open, r.fillColor + (close + rest));
      ReadUntilConcat(r.fillColor, close + rest, '"');
      ExpectConcat(close, rest);
    }
  }

  lemma ReadFormulaOf(r: CfRule)
    requires '"' !in r.fillColor
    ensures ReadFormula(FormulaXml(r)) == Some((r.formula, RuleViewOf(r).inlineFill))
  {
    var close := "</cfRule>";
    var f := EscapeXml(r.formula);
    var drest := InlineDxfXml(r) + close;
    assert FormulaXml(r) == "><formula>" + (f + ("</formula>" + drest));
    ExpectConcat("><formula>", f + ("</formula>" + drest));
    assert '<' !in f;
    ReadUntilConcat(f, "</formula>" + drest, '<');
    ExpectConcat("</formula>", drest);
    ReadInlineDxfOf(r, close);
    ExpectConcat(close, []);
    assert close + [] == close;
    EscapeXmlRoundTrip(r.formula);
  }

  lemma ReadDxfAttrOf(r: CfRule, rest: string)
    requires rest == FormulaXml(r)
    ensures ReadOptAttr(DxfAttr(r) + rest, "dxfId") ==
            Some((if r.dxfId.Some? then Some(NatToString(r.dxfId.value)) else None, rest))
  {
    if r.dxfId.Some? {
      var v := NatToString(r.dxfId.value);
      assert '"' !in v;
      assert DxfAttr(r) + rest == " " + "dxfId" + "=\"" + v + "\"" + rest;
      ReadOptAttrPresent("dxfId", v, rest);
    } else {
      assert DxfAttr(r) + rest == rest;
      assert !(" dxfId=\"" <= rest) by { assert rest[0] == '>'; }
      ReadOptAttrAbsent(rest, "dxfId");
    }
  }

  lemma ReadRuleTailOf(r: CfRule)
    requires '"' !in r.fillColor
    ensures ReadRuleTail(DxfAttr(r) + FormulaXml(r)) == Some((r.dxfId, r.formula, RuleViewOf(r).inlineFill))
  {
    ReadDxfAttrOf(r, FormulaXml(r));
    if r.dxfId.Some? {
      ReadDecimalNat(r.dxfId.value);
    }
    ReadFormulaOf(r);
  }

  lemma ReadExpressionHead(rest: string)
    ensures ReadRuleHead("<cfRule type=\"expression\"" + rest) == Some(("expression", rest))
  {
    assert "<cfRule type=\"expression\"" + rest == "<cfRule type=\"" + ("expression" + ("\"" + rest));
    ExpectConcat("<cfRule type=\"", "expression" + ("\"" + rest));
    ReadUntilConcat("expression", "\"" + rest, '"');
    ExpectConcat("\"", rest);
  }

  lemma ReadCellIsHead(rest: string)
    ensures ReadRuleHead("<cfRule type=\"cellIs\" operator=\"equal\"" + rest) == Some(("cellIs", rest))
  {
    var afterKind := " operator=\"equal\"" + rest;
    assert "<cfRule type=\"cellIs\" operator=\"equal\"" + rest == "<cfRule type=\"" + ("cellIs" + ("\"" + afterKind));
    ExpectConcat("<cfRule type=\"", "cellIs" + ("\"" + afterKind));
    ReadUntilConcat("cellIs", "\"" + afterKind, '"');
    ExpectConcat("\"", afterKind);
    ExpectConcat(" operator=\"equal\"", rest);
  }

  lemma ReadRuleHeadOf(r: CfRule, rest: string)
    ensures ReadRuleHead(RuleHeadXml(r) + rest) == Some((RuleViewOf(r).kind, rest))
  {
    if r.useExpression {
      ReadExpressionHead(rest);
    } else {
      ReadCellIsHead(rest);
    }
  }

  /**
   * Reading a serialised rule back recovers its type, priority, DXF
   * reference, formula and (only without a DXF reference) its fill colour.
   */
  lemma RuleXmlRoundTrip(r: CfRule)
    requires '"' !in r.fillColor
    ensures ReadRule(RuleXml(r)) == Some(RuleViewOf(r))
  {
    var p := NatToString(r.priority);
    assert '"' !in p;
    var tail := DxfAttr(r) + FormulaXml(r);
    var prest := " " + "priority" + "=\"" + p + "\"" + tail;
    assert RuleXml(r) == RuleHeadXml(r) + prest;
    ReadRuleHeadOf(r, prest);
    ReadOptAttrPresent("priority", p, tail);
    ReadDecimalNat(r.priority);
    ReadRuleTailOf(r);
  }

  // ---------------------------------------------------------------------
  // Grouping rules by range (ExcelSheet.toXML, lines 95-99)
  // ---------------------------------------------------------------------

  datatype CfGroup = CfGroup(sqref: string, rules: seq<CfRule>)

  /** One step of the forEach: append to the group of cf's range, or open a new group last. */
  function AddToGroups(gs: seq<CfGroup>, cf: CfRule): seq<CfGroup> {
    if gs == [] then [CfGroup(cf.sqref, [cf])]
    else if gs[0].sqref == cf.sqref then [gs[0].(rules := gs[0].rules + [cf])] + gs[1..]
    else [gs[0]] + AddToGroups(gs[1..], cf)
  }

  /** The rangeGroups object, its keys in insertion order. */
  function GroupBySqref(cfs: seq<CfRule>): seq<CfGroup> {
    if cfs == [] then [] else AddToGroups(GroupBySqref(cfs[..|cfs| - 1]), cfs[|cfs| - 1])
  }

  /** The rules registered against range q, in registration order. */
  function RulesFor(cfs: seq<CfRule>, q: string): seq<CfRule> {
    if cfs == [] then []
    else RulesFor(cfs[..|cfs| - 1], q) + (if cfs[|cfs| - 1].sqref == q then [cfs[|cfs| - 1]] else [])
  }

  predicate HasRange(cfs: seq<CfRule>, q: string) {
    exists k :: 0 <= k < |cfs| && cfs[k].sqref == q
  }

  /** Index of the first rule registered against q. */
  function FirstIndex(cfs: seq<CfRule>, q: string): (k: nat)
    requires HasRange(cfs, q)
    ensures k < |cfs| && cfs[k].sqref == q
    ensures forall j :: 0 <= j < k ==> cfs[j].sqref != q
  {
    if cfs[0].sqref == q then 0
    else
      assert HasRange(cfs[1..], q) by {
        var k :| 0 <= k < |cfs| && cfs[k].sqref == q;
        assert cfs[1..][k - 1] == cfs[k];
      }
      1 + FirstIndex(cfs[1..], q)
  }

  /** One block per distinct range. */
  ghost predicate DistinctRanges(gs: seq<CfGroup>) {
    forall i, j :: 0 <= i < j < |gs| ==> gs[i].sqref != gs[j].sqref
  }

  /** Every registered range has its block. */
  ghost predicate CoversRanges(cfs: seq<CfRule>, gs: seq<CfGroup>) {
    forall k :: 0 <= k < |cfs| ==> exists i :: 0 <= i < |gs| && gs[i].sqref == cfs[k].sqref
  }

  /** A block holds exactly its range's rules, in registration order. */
  ghost predicate BlocksHoldRules(cfs: seq<CfRule>, gs: seq<CfGroup>) {
    forall i :: 0 <= i < |gs| ==> HasRange(cfs, gs[i].sqref) && gs[i].rules == RulesFor(cfs, gs[i].sqref)
  }

  /** Blocks come in the order their ranges were first used. */
  ghost predicate FirstSeenOrder(cfs: seq<CfRule>, gs: seq<CfGroup>) {
    forall i, j :: 0 <= i < j < |gs| ==>
      HasRange(cfs, gs[i].sqref) && HasRange(cfs, gs[j].sqref) &&
      FirstIndex(cfs, gs[i].sqref) < FirstIndex(cfs, gs[j].sqref)
  }

  ghost predicate GroupedBySqref(cfs: seq<CfRule>, gs: seq<CfGroup>) {
    DistinctRanges(gs) && CoversRanges(cfs, gs) && BlocksHoldRules(cfs, gs) && FirstSeenOrder(cfs, gs)
  }

  lemma {:induction false} AddToGroupsExisting(gs: seq<CfGroup>, cf: CfRule, i: nat)
    requires i < |gs| && gs[i].sqref == cf.sqref
    requires forall a, b :: 0 <= a < b < |gs| ==> gs[a].sqref != gs[b].sqref
    ensures |AddToGroups(gs, cf)| == |gs|
    ensures AddToGroups(gs, cf)[i] == gs[i].(rules := gs[i].rules + [cf])
    ensures forall j :: 0 <= j < |gs| && j != i ==> AddToGroups(gs, cf)[j] == gs[j]
  {
    if i > 0 {
      assert gs[0].sqref != gs[i].sqref;
      AddToGroupsExisting(gs[1..], cf, i - 1);
    }
  }

  lemma {:induction false} AddToGroupsNew(gs: seq<CfGroup>, cf: CfRule)
    requires forall j :: 0 <= j < |gs| ==> gs[j].sqref != cf.sqref
    ensures AddToGroups(gs, cf) == gs + [CfGroup(cf.sqref, [cf])]
  {
    if gs != [] {
      AddToGroupsNew(gs[1..], cf);
    }
  }

  lemma RulesForSnoc(cfs: seq<CfRule>, cf: CfRule, q: string)
    ensures RulesFor(cfs + [cf], q) == RulesFor(cfs, q) + (if cf.sqref == q then [cf] else [])
  {
    assert (cfs + [cf])[..|cfs|] == cfs;
  }

  lemma {:induction false} RulesForAbsent(cfs: seq<CfRule>, q: string)
    requires !HasRange(cfs, q)
    ensures RulesFor(cfs, q) == []
  {
    if cfs != [] {
      var init := cfs[..|cfs| - 1];
      assert forall k :: 0 <= k < |init| ==> init[k] == cfs[k];
      RulesForAbsent(init, q);
    }
  }

  lemma FirstIndexSnoc(cfs: seq<CfRule>, cf: CfRule, q: string)
    requires HasRange(cfs + [cf], q)
    ensures HasRange(cfs, q) ==> FirstIndex(cfs + [cf], q) == FirstIndex(cfs, q)
    ensures !HasRange(cfs, q) ==> FirstIndex(cfs + [cf], q) == |cfs|
  {
    var s := cfs + [cf];
    assert forall j :: 0 <= j < |cfs| ==> s[j] == cfs[j];
  }

  /** What registering one more rule does to the per-range queries. */
  lemma SnocRanges(init: seq<CfRule>, cf: CfRule)
    ensures forall q :: RulesFor(init + [cf], q) == RulesFor(init, q) + (if cf.sqref == q then [cf] else [])
    ensures forall q :: HasRange(init, q) ==> HasRange(init + [cf], q) && FirstIndex(init + [cf], q) == FirstIndex(init, q)
    ensures HasRange(init + [cf], cf.sqref)
    ensures !HasRange(init, cf.sqref) ==> FirstIndex(init + [cf], cf.sqref) == |init|
  {
    var cfs := init + [cf];
    assert forall k :: 0 <= k < |init| ==> cfs[k] == init[k];
    forall q ensures RulesFor(cfs, q) == RulesFor(init, q) + (if cf.sqref == q then [cf] else []) {
      RulesForSnoc(init, cf, q);
    }
    forall q | HasRange(init, q) ensures HasRange(cfs, q) && FirstIndex(cfs, q) == FirstIndex(init, q) {
      FirstIndexSnoc(init, cf, q);
    }
    assert cfs[|init|] == cf;
    FirstIndexSnoc(init, cf, cf.sqref);
  }

  lemma CoversSnoc(init: seq<CfRule>, cf: CfRule, gs0: seq<CfGroup>, gs: seq<CfGroup>)
    requires CoversRanges(init, gs0)
    requires |gs0| <= |gs| && forall j :: 0 <= j < |gs0| ==> gs[j].sqref == gs0[j].sqref
    requires exists j :: 0 <= j < |gs| && gs[j].sqref == cf.sqref
    ensures CoversRanges(init + [cf], gs)
  {
    var cfs := init + [cf];
    forall k | 0 <= k < |cfs| ensures exists j :: 0 <= j < |gs| && gs[j].sqref == cfs[k].sqref {
      if k < |init| {
        assert cfs[k] == init[k];
        var j :| 0 <= j < |gs0| && gs0[j].sqref == init[k].sqref;
        assert gs[j].sqref == gs0[j].sqref;
      }
    }
  }

  lemma RulesStepExisting(init: seq<CfRule>, cf: CfRule, gs0: seq<CfGroup>, gs: seq<CfGroup>, i: nat)
    requires BlocksHoldRules(init, gs0) && DistinctRanges(gs0)
    requires i < |gs0| == |gs| && gs0[i].sqref == cf.sqref
    requires gs[i] == gs0[i].(rules := gs0[i].rules + [cf])
    requires forall j :: 0 <= j < |gs0| && j != i ==> gs[j] == gs0[j]
    ensures BlocksHoldRules(init + [cf], gs)
  {
    SnocRanges(init, cf);
    forall j | 0 <= j < |gs| ensures HasRange(init + [cf], gs[j].sqref) && gs[j].rules == RulesFor(init + [cf], gs[j].sqref) {
      if j != i {
        assert gs0[j].sqref != gs0[i].sqref;
      }
    }
  }

  lemma OrderStepSameRanges(init: seq<CfRule>, cf: CfRule, gs0: seq<CfGroup>, gs: seq<CfGroup>)
    requires FirstSeenOrder(init, gs0)
    requires |gs0| == |gs| && forall j :: 0 <= j < |gs| ==> gs[j].sqref == gs0[j].sqref
    requires forall j :: 0 <= j < |gs0| ==> HasRange(init, gs0[j].sqref)
    ensures FirstSeenOrder(init + [cf], gs)
  {
    SnocRanges(init, cf);
  }

  /** Registering a rule against a range that already has a block. */
  lemma GroupStepExisting(init: seq<CfRule>, cf: CfRule, gs0: seq<CfGroup>, i: nat)
    requires GroupedBySqref(init, gs0)
    requires i < |gs0| && gs0[i].sqref == cf.sqref
    ensures GroupedBySqref(init + [cf], AddToGroups(gs0, cf))
  {
    var gs := AddToGroups(gs0, cf);
    AddToGroupsExisting(gs0, cf, i);
    assert forall j :: 0 <= j < |gs| ==> gs[j].sqref == gs0[j].sqref;
    assert DistinctRanges(gs);
    CoversSnoc(init, cf, gs0, gs);
    RulesStepExisting(init, cf, gs0, gs, i);
    OrderStepSameRanges(init, cf, gs0, gs);
  }

  lemma RulesStepNew(init: seq<CfRule>, cf: CfRule, gs0: seq<CfGroup>)
    requires BlocksHoldRules(init, gs0)
    requires forall j :: 0 <= j < |gs0| ==> gs0[j].sqref != cf.sqref
    requires !HasRange(init, cf.sqref)
    ensures BlocksHoldRules(init + [cf], gs0 + [CfGroup(cf.sqref, [cf])])
  {
    SnocRanges(init, cf);
    RulesForAbsent(init, cf.sqref);
  }

  lemma OrderStepNew(init: seq<CfRule>, cf: CfRule, gs0: seq<CfGroup>)
    requires FirstSeenOrder(init, gs0)
    requires forall j :: 0 <= j < |gs0| ==> HasRange(init, gs0[j].sqref)
    requires !HasRange(init, cf.sqref)
    ensures FirstSeenOrder(init + [cf], gs0 + [CfGroup(cf.sqref, [cf])])
  {
    SnocRanges(init, cf);
    var gs := gs0 + [CfGroup(cf.sqref, [cf])];
    forall a, b | 0 <= a < b < |gs|
      ensures HasRange(init + [cf], gs[a].sqref) && HasRange(init + [cf], gs[b].sqref) &&
              FirstIndex(init + [cf], gs[a].sqref) < FirstIndex(init + [cf], gs[b].sqref)
    {
      assert gs[a] == gs0[a];
      if b < |gs0| {
        assert gs[b] == gs0[b];
      } else {
        assert FirstIndex(init, gs0[a].sqref) < |init|;
      }
    }
  }

  /** Registering a rule against a range not seen before. */
  lemma GroupStepNew(init: seq<CfRule>, cf: CfRule, gs0: seq<CfGroup>)
    requires GroupedBySqref(init, gs0)
    requires forall j :: 0 <= j < |gs0| ==> gs0[j].sqref != cf.sqref
    ensures GroupedBySqref(init + [cf], AddToGroups(gs0, cf))
  {
    var gs := AddToGroups(gs0, cf);
    AddToGroupsNew(gs0, cf);
    assert !HasRange(init, cf.sqref) by {
      forall k | 0 <= k < |init| ensures init[k].sqref != cf.sqref {
        var j :| 0 <= j < |gs0| && gs0[j].sqref == init[k].sqref;
      }
    }
    assert DistinctRanges(gs) by {
      forall a, b | 0 <= a < b < |gs| ensures gs[a].sqref != gs[b].sqref {
        assert gs[a] == gs0[a];
        if b < |gs0| { assert gs[b] == gs0[b]; }
      }
    }
    assert gs[|gs0|].sqref == cf.sqref;
    CoversSnoc(init, cf, gs0, gs);
    RulesStepNew(init, cf, gs0);
    OrderStepNew(init, cf, gs0);
  }

  /** The grouping is one block per distinct range, first-seen order, registration order within a block. */
  lemma {:induction false} GroupBySqrefSpec(cfs: seq<CfRule>)
    ensures GroupedBySqref(cfs, GroupBySqref(cfs))
  {
    if cfs != [] {
      var init, cf := cfs[..|cfs| - 1], cfs[|cfs| - 1];
      assert cfs == init + [cf];
      GroupBySqrefSpec(init);
      var gs0 := GroupBySqref(init);
      if i :| 0 <= i < |gs0| && gs0[i].sqref == cf.sqref {
        GroupStepExisting(init, cf, gs0, i);
      } else {
        GroupStepNew(init, cf, gs0);
      }
    }
  }

  /** Rules that all share one range form a single block holding them all, in order. */
  lemma {:induction false} SameRangeOneBlock(cfs: seq<CfRule>, q: string)
    requires |cfs| > 0 && forall i :: 0 <= i < |cfs| ==> cfs[i].sqref == q
    ensures GroupBySqref(cfs) == [CfGroup(q, cfs)]
  {
    var init := cfs[..|cfs| - 1];
    if init != [] {
      SameRangeOneBlock(init, q);
    }
    assert init + [cfs[|cfs| - 1]] == cfs;
  }

  function RuleListXml(rules: seq<CfRule>): string {
    if rules == [] then "" else RuleXml(rules[0]) + RuleListXml(rules[1..])
  }

  function GroupXml(g: CfGroup): string {
    "<conditionalFormatting sqref=\"" + g.sqref + "\">" + RuleListXml(g.rules) + "</conditionalFormatting>"
  }

  function GroupListXml(gs: seq<CfGroup>): string {
    if gs == [] then "" else GroupXml(gs[0]) + GroupListXml(gs[1..])
  }

  /** The conditional-formatting part of ExcelSheet.toXML: one block per range. */
  function CfXml(cfs: seq<CfRule>): string {
    if |cfs| > 0 then GroupListXml(GroupBySqref(cfs)) else ""
  }

  // ---------------------------------------------------------------------
  // Merges
  // ---------------------------------------------------------------------

  function MergeXml(ref: string): string {
    "<mergeCell ref=\"" + ref + "\"/>"
  }

  function MergeListXml(refs: seq<string>): string {
    if refs == [] then "" else MergeXml(refs[0]) + MergeListXml(refs[1..])
  }

  /** The `<mergeCells>` block, omitted when there are no merges. */
  function MergesXml(refs: seq<string>): string {
    if |refs| > 0 then "<mergeCells count=\"" + NatToString(|refs|) + "\">" + MergeListXml(refs) + "</mergeCells>"
    else ""
  }

  function ReadMergeList(s: string): Option<(seq<string>, string)>
    decreases |s|
  {
    if "<mergeCell ref=\"" <= s then
      var (ref, rest) := ReadUntil(s[16..], '"');
      var after :- Expect(rest, "\"/>");
      var more :- ReadMergeList(after);
      Some(([ref] + more.0, more.1))
    else
      Some(([], s))
  }

  /** Parses a `<mergeCells>` block: its count attribute and the listed ranges. */
  function ReadMerges(x: string): Option<(nat, seq<string>)> {
    var a :- Expect(x, "<mergeCells count=\"");
    var (n, b) := ReadUntil(a, '"');
    var count :- ReadDecimal(n);
    var b1 :- Expect(b, "\">");
    var l :- ReadMergeList(b1);
    var e :- Expect(l.1, "</mergeCells>");
    if e == [] then Some((count, l.0)) else None
  }

  lemma {:induction false} ReadMergeListOf(refs: seq<string>, rest: string)
    requires forall i :: 0 <= i < |refs| ==> '"' !in refs[i]
    requires rest == "</mergeCells>"
    ensures ReadMergeList(MergeListXml(refs) + rest) == Some((refs, rest))
  {
    if refs == [] {
      assert MergeListXml(refs) + rest == rest;
      assert !("<mergeCell ref=\"" <= rest) by { assert rest[1] != "<mergeCell ref=\""[1]; }
    } else {
      var tail := MergeListXml(refs[1..]) + rest;
      var s := "<mergeCell ref=\"" + (refs[0] + ("\"/>" + tail));
      assert MergeListXml(refs) + rest == s;
      ExpectConcat("<mergeCell ref=\"", refs[0] + ("\"/>" + tail));
      ReadUntilConcat(refs[0], "\"/>" + tail, '"');
      ExpectConcat("\"/>", tail);
      ReadMergeListOf(refs[1..], rest);
      assert [refs[0]] + refs[1..] == refs;
    }
  }

  /**
   * The merge block is absent exactly when there are no merges; otherwise
   * its count attribute is the number of ranges and it lists them in order.
   */
  lemma MergesRoundTrip(refs: seq<string>)
    requires forall i :: 0 <= i < |refs| ==> '"' !in refs[i]
    ensures MergesXml(refs) == "" <==> refs == []
    ensures refs != [] ==> ReadMerges(MergesXml(refs)) == Some((|refs|, refs))
  {
    if refs != [] {
      var n := NatToString(|refs|);
      var close := "</mergeCells>";
      var body := MergeListXml(refs) + close;
      var x := MergesXml(refs);
      assert x == "<mergeCells count=\"" + (n + ("\">" + body));
      ExpectConcat("<mergeCells count=\"", n + ("\">" + body));
      assert '"' !in n;
      ReadUntilConcat(n, "\">" + body, '"');
      ReadDecimalNat(|refs|);
      ExpectConcat("\">", body);
      ReadMergeListOf(refs, close);
      ExpectConcat(close, []);
      assert close + [] == close;
    }
  }

  // ---------------------------------------------------------------------
  // ExcelSheet
  // ---------------------------------------------------------------------

  /** One `{min, max, width}` column definition. */
  datatype ColDef = ColDef(min: nat, max: nat, width: nat)

  function ColXml(c: ColDef): string {
    "<col min=\"" + NatToString(c.min) + "\" max=\"" + NatToString(c.max) + "\" width=\"" + NatToString(c.width) + "\"/>"
  }

  function ColListXml(cols: seq<ColDef>): string {
    if cols == [] then "" else ColXml(cols[0]) + ColListXml(cols[1..])
  }

  /** The `<cols>` block, omitted when no widths are set. */
  function ColsXml(cols: seq<ColDef>): string {
    if |cols| > 0 then "<cols>" + ColListXml(cols) + "</cols>" else ""
  }

  /** The XML declaration and the worksheet element's opening tag with its two namespaces. */
  const WorksheetOpen: string :=
    "<?xml version=\"1.0\" encoding=\"UTF-8\"?>\n" +
    "<worksheet xmlns=\"http://schemas.openxmlformats.org/spreadsheetml/2006/main\" xmlns:r=\"http://schemas.openxmlformats.org/officeDocument/2006/relationships\">\n  "

  /** The worksheet document: columns, then rows, then merges, then conditional formatting. */
  function SheetXml(colsXml: string, rowXmls: seq<string>, mergesXml: string, cfXml: string): string {
    WorksheetOpen +
    colsXml + "\n  <sheetData>\n    " + Join(rowXmls, "\n    ") + "\n  </sheetData>\n  " +
    mergesXml + "\n  " + cfXml + "\n</worksheet>"
  }

  /** The markup of each row, in the order the rows were added. */
  function RowsXml(rows: seq<UniqueExcelRow>): seq<string>
    reads rows`cellMap
  {
    if rows == [] then [] else [rows[0].ToXml()] + RowsXml(rows[1..])
  }

  /**
   * A worksheet under construction. Its rows are the UniqueExcelRow objects
   * the calendar layout fills (the only kind of row any caller adds).
   */
  class ExcelSheet {
    const name: string
    var rows: seq<UniqueExcelRow>
    var merges: seq<string>
    var cols: seq<ColDef>
    var conditionalFormatting: seq<CfRule>

    constructor (name: string)
      ensures this.name == name
      ensures rows == [] && merges == [] && cols == [] && conditionalFormatting == []
    {
      this.name := name;
      rows := [];
      merges := [];
      cols := [];
      conditionalFormatting := [];
    }

    method AddRow(row: UniqueExcelRow)
      modifies this`rows
      ensures rows == old(rows) + [row]
    {
      rows := rows + [row];
    }

    method AddMerge(ref: string)
      modifies this`merges
      ensures merges == old(merges) + [ref]
    {
      merges := merges + [ref];
    }

    method SetCols(colDefs: seq<ColDef>)
      modifies this`cols
      ensures cols == colDefs
    {
      cols := colDefs;
    }

    method AddConditionalFormatting(cf: CfRule)
      modifies this`conditionalFormatting
      ensures conditionalFormatting == old(conditionalFormatting) + [cf]
    {
      conditionalFormatting := conditionalFormatting + [cf];
    }

    /** ExcelSheet.toXML: columns, rows in the order added, merges, then the rule blocks. */
    function ToXml(): string
      reads this, rows
    {
      SheetXml(ColsXml(cols), RowsXml(rows), MergesXml(merges), CfXml(conditionalFormatting))
    }
  }
}
