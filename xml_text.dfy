/**
 * Text helpers shared by every XML part of the workbook: the five-entity
 * escaper (escapeXml in script.js), the decimal rendering that JavaScript
 * template literals apply to numbers, and a tiny parsing kit used to read
 * serialised markup back in the round-trip lemmas.
 */
module XmlText {
  import opened Wrappers

  // ---------------------------------------------------------------------
  // Escaping
  // ---------------------------------------------------------------------

  /** The characters escapeXml replaces. */
  predicate IsReserved(c: char) {
    c == '<' || c == '>' || c == '&' || c == '"' || c == '\''
  }

  /** The replacement escapeXml's switch picks for one character. */
  function EscapeChar(c: char): string {
    match c
    case '<' => "&lt;"
    case '>' => "&gt;"
    case '&' => "&amp;"
    case '"' => "&quot;"
    case '\'' => "&apos;"
    case _ => [c]
  }

  /** True when one of the five entity references starts at the head of s. */
  predicate StartsWithEntity(s: string) {
    "&lt;" <= s || "&gt;" <= s || "&amp;" <= s || "&quot;" <= s || "&apos;" <= s
  }

  /** Escapes every reserved character of s; everything else is copied. */
  function EscapeXml(s: string): (r: string)
    ensures forall i :: 0 <= i < |r| ==> r[i] != '<' && r[i] != '>' && r[i] != '"' && r[i] != '\''
    ensures |r| >= |s|
  {
    if s == [] then [] else EscapeChar(s[0]) + EscapeXml(s[1..])
  }

  /**
   * The inverse reading: each of the five entity references becomes its
   * character, every other character is copied.
   */
  function UnescapeXml(s: string): string
    decreases |s|
  {
    if s == [] then []
    else if "&lt;" <= s then "<" + UnescapeXml(s[4..])
    else if "&gt;" <= s then ">" + UnescapeXml(s[4..])
    else if "&amp;" <= s then "&" + UnescapeXml(s[5..])
    else if "&quot;" <= s then "\"" + UnescapeXml(s[6..])
    else if "&apos;" <= s then "'" + UnescapeXml(s[6..])
    else [s[0]] + UnescapeXml(s[1..])
  }

  lemma PrefixOfConcat(p: string, a: string, b: string)
    requires p <= a
    ensures p <= a + b
  {
    assert (a + b)[..|p|] == a[..|p|];
  }

  /** Escaping distributes over concatenation: the text keeps its order. */
  lemma {:induction false} EscapeXmlConcat(a: string, b: string)
    ensures EscapeXml(a + b) == EscapeXml(a) + EscapeXml(b)
  {
    if a == [] {
      assert a + b == b;
    } else {
      assert (a + b)[0] == a[0];
      assert (a + b)[1..] == a[1..] + b;
      EscapeXmlConcat(a[1..], b);
    }
  }

  /** Text without reserved characters passes through unchanged. */
  lemma {:induction false} EscapeXmlPlain(s: string)
    requires forall i :: 0 <= i < |s| ==> !IsReserved(s[i])
    ensures EscapeXml(s) == s
  {
    if s != [] {
      EscapeXmlPlain(s[1..]);
    }
  }

  /** Every ampersand in escaped text starts one of the five entity references. */
  lemma {:induction false} EscapeXmlAmpersands(s: string)
    ensures forall i :: 0 <= i < |EscapeXml(s)| && EscapeXml(s)[i] == '&' ==> StartsWithEntity(EscapeXml(s)[i..])
  {
    if s != [] {
      EscapeXmlAmpersands(s[1..]);
      var head, tail := EscapeChar(s[0]), EscapeXml(s[1..]);
      assert EscapeXml(s) == head + tail;
      forall i | 0 <= i < |head + tail| && (head + tail)[i] == '&'
        ensures StartsWithEntity((head + tail)[i..])
      {
        if i < |head| {
          assert i == 0 && IsReserved(s[0]);
          assert (head + tail)[i..] == head + tail;
          PrefixOfConcat(head, head, tail);
        } else {
          assert (head + tail)[i..] == tail[i - |head|..];
        }
      }
    }
  }

  /** Decoding the entities gives back exactly the escaped text. */
  lemma {:induction false} EscapeXmlRoundTrip(s: string)
    ensures UnescapeXml(EscapeXml(s)) == s
  {
    if s != [] {
      var c, tail := s[0], EscapeXml(s[1..]);
      var e := EscapeChar(c) + tail;
      assert EscapeXml(s) == e;
      EscapeXmlRoundTrip(s[1..]);
      PrefixOfConcat(EscapeChar(c), EscapeChar(c), tail);
      assert e[|EscapeChar(c)|..] == tail;
      if !IsReserved(c) {
        assert e[0] == c;
        assert !("&lt;" <= e) && !("&gt;" <= e) && !("&amp;" <= e) && !("&quot;" <= e) && !("&apos;" <= e) by {
          assert e[0] != '&';
        }
        assert e[1..] == tail;
      } else if c == '&' {
        assert e[..5] == "&amp;";
        assert !("&lt;" <= e) by { assert e[1] != "&lt;"[1]; }
        assert !("&gt;" <= e) by { assert e[1] != "&gt;"[1]; }
      } else if c == '"' {
        assert !("&lt;" <= e) by { assert e[1] != "&lt;"[1]; }
        assert !("&gt;" <= e) by { assert e[1] != "&gt;"[1]; }
        assert !("&amp;" <= e) by { assert e[1] != "&amp;"[1]; }
      } else if c == '\'' {
        assert !("&lt;" <= e) by { assert e[1] != "&lt;"[1]; }
        assert !("&gt;" <= e) by { assert e[1] != "&gt;"[1]; }
        assert !("&amp;" <= e) by { assert e[2] != "&amp;"[2]; }
        assert !("&quot;" <= e) by { assert e[1] != "&quot;"[1]; }
      } else if c == '>' {
        assert !("&lt;" <= e) by { assert e[1] != "&lt;"[1]; }
      }
    }
  }

  // ---------------------------------------------------------------------
  // Decimal rendering (what `${n}` produces for an integer n)
  // ---------------------------------------------------------------------

  predicate IsDigit(c: char) {
    '0' <= c <= '9'
  }

  predicate AllDigits(s: string) {
    forall i :: 0 <= i < |s| ==> IsDigit(s[i])
  }

  function DigitChar(d: nat): (c: char)
    requires d < 10
    ensures IsDigit(c) && (c as int) - ('0' as int) == d
  {
    ('0' as int + d) as char
  }

  /** The shortest decimal spelling of n. */
  function NatToString(n: nat): (s: string)
    ensures |s| >= 1 && AllDigits(s)
    ensures |s| > 1 ==> s[0] != '0'
  {
    if n < 10 then [DigitChar(n)] else NatToString(n / 10) + [DigitChar(n % 10)]
  }

  /** What JavaScript's String(n) gives for an integer n. */
  function IntToString(n: int): (s: string)
    ensures |s| >= 1
    ensures forall i :: 0 <= i < |s| ==> IsDigit(s[i]) || s[i] == '-'
  {
    if n < 0 then "-" + NatToString(-n) else NatToString(n)
  }

  /** The value of a string of decimal digits. */
  function ParseDigits(s: string): nat
    requires AllDigits(s)
  {
    if s == [] then 0
    else ParseDigits(s[..|s| - 1]) * 10 + ((s[|s| - 1] as int) - ('0' as int))
  }

  /** Reading the decimal spelling back gives the number. */
  lemma {:induction false} NatToStringRoundTrip(n: nat)
    ensures ParseDigits(NatToString(n)) == n
  {
    if n >= 10 {
      var s := NatToString(n);
      assert s[..|s| - 1] == NatToString(n / 10);
      NatToStringRoundTrip(n / 10);
    }
  }

  /** Distinct numbers are spelt differently. */
  lemma NatToStringInjective(m: nat, n: nat)
    requires NatToString(m) == NatToString(n)
    ensures m == n
  {
    NatToStringRoundTrip(m);
    NatToStringRoundTrip(n);
  }

  // ---------------------------------------------------------------------
  // A tiny parsing kit for the read-back lemmas
  // ---------------------------------------------------------------------

  /** Consumes the literal p at the head of s. */
  function Expect(s: string, p: string): (r: Option<string>)
    ensures r.Some? <==> p <= s
    ensures r.Some? ==> s == p + r.value
  {
    if p <= s then Some(s[|p|..]) else None
  }

  /** Splits s at the first occurrence of stop. */
  function ReadUntil(s: string, stop: char): (r: (string, string))
    ensures r.0 + r.1 == s
    ensures stop !in r.0
    ensures r.1 == [] || r.1[0] == stop
  {
    if s == [] || s[0] == stop then ([], s)
    else
      var (a, b) := ReadUntil(s[1..], stop);
      ([s[0]] + a, b)
  }

  /** A decimal field: a non-empty run of digits. */
  function ReadDecimal(tok: string): (r: Option<nat>)
    ensures r.Some? <==> |tok| > 0 && AllDigits(tok)
  {
    if |tok| > 0 && AllDigits(tok) then Some(ParseDigits(tok)) else None
  }

  lemma ExpectConcat(p: string, rest: string)
    ensures Expect(p + rest, p) == Some(rest)
  {
    assert (p + rest)[..|p|] == p;
    assert (p + rest)[|p|..] == rest;
  }

  lemma ExpectMismatch(s: string, p: string, i: nat)
    requires i < |p| && i < |s| && s[i] != p[i]
    ensures Expect(s, p) == None
  {
  }

  lemma {:induction false} ReadUntilConcat(tok: string, rest: string, stop: char)
    requires stop !in tok
    requires rest != [] && rest[0] == stop
    ensures ReadUntil(tok + rest, stop) == (tok, rest)
  {
    if tok != [] {
      assert tok[0] in tok;
      assert (tok + rest)[0] == tok[0] != stop;
      assert (tok + rest)[1..] == tok[1..] + rest;
      ReadUntilConcat(tok[1..], rest, stop);
      assert [tok[0]] + tok[1..] == tok;
    } else {
      assert tok + rest == rest;
    }
  }

  lemma ReadDecimalNat(n: nat)
    ensures ReadDecimal(NatToString(n)) == Some(n)
  {
    NatToStringRoundTrip(n);
  }

  /**
   * An optional attribute ` name="value"` at the head of s: its value and
   * what follows it, or no value and s unchanged when the attribute is absent.
   */
  function ReadOptAttr(s: string, name: string): Option<(Option<string>, string)> {
    var open := " " + name + "=\"";
    if open <= s then
      var (v, rest) := ReadUntil(s[|open|..], '"');
      var after :- Expect(rest, "\"");
      Some((Some(v), after))
    else
      Some((None, s))
  }

  lemma ReadOptAttrPresent(name: string, v: string, rest: string)
    requires '"' !in v
    ensures ReadOptAttr(" " + name + "=\"" + v + "\"" + rest, name) == Some((Some(v), rest))
  {
    var open := " " + name + "=\"";
    var s := open + (v + ("\"" + rest));
    assert s == " " + name + "=\"" + v + "\"" + rest;
    ExpectConcat(open, v + ("\"" + rest));
    ReadUntilConcat(v, "\"" + rest, '"');
    ExpectConcat("\"", rest);
  }

  lemma ReadOptAttrAbsent(s: string, name: string)
    requires !((" " + name + "=\"") <= s)
    ensures ReadOptAttr(s, name) == Some((None, s))
  {
  }

  /** Concatenation of a list of strings. */
  function Concat(parts: seq<string>): string {
    if parts == [] then "" else parts[0] + Concat(parts[1..])
  }

  /** JavaScript's Array.prototype.join. */
  function Join(parts: seq<string>, sep: string): string {
    if parts == [] then ""
    else if |parts| == 1 then parts[0]
    else parts[0] + sep + Join(parts[1..], sep)
  }

  lemma {:induction false} ConcatAppend(parts: seq<string>, last: string)
    ensures Concat(parts + [last]) == Concat(parts) + last
  {
    if parts == [] {
      assert parts + [last] == [last];
    } else {
      assert (parts + [last])[1..] == parts[1..] + [last];
      ConcatAppend(parts[1..], last);
    }
  }
}
