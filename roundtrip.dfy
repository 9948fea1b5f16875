/**
 * What survives an import followed by an export: the decoder, run on the
 * page body the importer builds, finds the encoded definition as the first
 * cell of the first table, takes the branch without paragraphs, and gives
 * back the trimmed definition with every newline deleted, because the
 * `<br />` markers are removed as tags rather than turned back into
 * newlines.
 */
module RoundTrip {
  import opened Text
  import opened Optional
  import opened Codec
  import opened Scan
  import opened Decoder

  /** The text with every newline deleted. */
  function RemoveNewlines(s: string): (r: string)
    ensures '\n' !in r
    ensures |r| <= |s|
    decreases |s|
  {
    if s == [] then []
    else if s[0] == '\n' then RemoveNewlines(s[1..])
    else [s[0]] + RemoveNewlines(s[1..])
  }

  lemma {:induction false} RemoveNewlinesAppend(a: string, b: string)
    ensures RemoveNewlines(a + b) == RemoveNewlines(a) + RemoveNewlines(b)
    decreases |a|
  {
    if a == [] {
      assert a + b == b;
    } else {
      assert (a + b)[1..] == a[1..] + b;
      RemoveNewlinesAppend(a[1..], b);
    }
  }

  /** Text without newlines is left as it is. */
  lemma {:induction false} RemoveNewlinesKeeps(s: string)
    requires '\n' !in s
    ensures RemoveNewlines(s) == s
    decreases |s|
  {
    if s != [] {
      assert '\n' !in s[1..] by {
        forall k | 0 <= k < |s[1..]| ensures s[1..][k] != '\n' {
          assert s[1..][k] == s[k + 1];
        }
      }
      RemoveNewlinesKeeps(s[1..]);
    }
  }

  /** Deleting newlines keeps the first and the last character when they
      are not newlines, so trimmed text stays trimmed. */
  lemma RemoveNewlinesTrimmed(s: string)
    requires Trimmed(s)
    ensures Trimmed(RemoveNewlines(s))
  {
    if s != [] {
      var n := |s| - 1;
      assert s == s[..n] + [s[n]];
      RemoveNewlinesAppend(s[..n], [s[n]]);
      assert RemoveNewlines([s[n]]) == [s[n]];
    }
  }

  /** Escaping turns no other character into a newline. */
  lemma EscapeCharNoNewline(c: char)
    requires c != '\n'
    ensures '\n' !in EscapeChar(c)
  {
    match c
    case '&' =>
    case '<' =>
    case '>' =>
    case '"' =>
    case '\'' =>
    case _ => assert EscapeChar(c) == [c];
  }

  /** Deleting newlines commutes with escaping. */
  lemma {:induction false} RemoveNewlinesEscape(s: string)
    ensures RemoveNewlines(Escape(s)) == Escape(RemoveNewlines(s))
    decreases |s|
  {
    if s != [] {
      RemoveNewlinesEscape(s[1..]);
      RemoveNewlinesAppend(EscapeChar(s[0]), Escape(s[1..]));
      if s[0] == '\n' {
        assert RemoveNewlines(EscapeChar(s[0])) == [];
      } else {
        EscapeCharNoNewline(s[0]);
        RemoveNewlinesKeeps(EscapeChar(s[0]));
        var t := [s[0]] + RemoveNewlines(s[1..]);
        assert t[0] == s[0] && t[1..] == RemoveNewlines(s[1..]);
      }
    }
  }

  /** The tag pattern that follows the `<` of a marker ends at its `>`. */
  lemma TagEndOfMarker(x: string)
    ensures TagEnd(LineBreak[1..] + x) == Some(4)
  {
    var t := LineBreak[1..] + x;
    assert TagEnd(t[4..]) == Some(0);
    assert t[3..][1..] == t[4..];
    assert TagEnd(t[3..]) == Some(1);
    assert t[2..][1..] == t[3..];
    assert TagEnd(t[2..]) == Some(2);
    assert t[1..][1..] == t[2..];
    assert TagEnd(t[1..]) == Some(3);
  }

  /** Tag stripping removes exactly the markers from `<`-free text with
      markers in place of newlines. */
  lemma {:induction false} StripTagsMarkers(e: string)
    requires '<' !in e
    ensures StripTags(ReplaceNewlines(e)) == RemoveNewlines(e)
    decreases |e|
  {
    if e != [] {
      assert '<' !in e[1..] by {
        forall k | 0 <= k < |e[1..]| ensures e[1..][k] != '<' {
          assert e[1..][k] == e[k + 1];
        }
      }
      StripTagsMarkers(e[1..]);
      var rest := ReplaceNewlines(e[1..]);
      var s := ReplaceNewlines(e);
      if e[0] == '\n' {
        assert s == LineBreak + rest;
        assert s[1..] == LineBreak[1..] + rest;
        TagEndOfMarker(rest);
        assert s[6..] == rest;
      } else {
        assert s == [e[0]] + rest;
        assert s[1..] == rest;
      }
    }
  }

  lemma MarkerShape()
    ensures |LineBreak| == 6 && OneTag(LineBreak) && LowerChar(LineBreak[1]) == 'b'
  {
  }

  /** The search for a tag pattern that is not a marker goes straight
      through encoded text. */
  lemma {:induction false} SkipMarked(d: string, b: string, pat: string)
    requires |pat| > 1 && pat[0] == '<' && pat[1] != 'b'
    requires AnglesOnlyInMarkers(d)
    ensures FindFrom(d + b, pat, 0) == Shift(FindFrom(b, pat, 0), |d|)
    decreases |d|
  {
    if d == [] {
      assert d + b == b;
    } else if |d| >= |LineBreak| && d[..|LineBreak|] == LineBreak && AnglesOnlyInMarkers(d[|LineBreak|..]) {
      var t := d[|LineBreak|..];
      assert d + b == LineBreak + (t + b);
      SkipMarked(t, b, pat);
      MarkerShape();
      SkipTag(LineBreak, t + b, pat, 1);
    } else {
      assert d + b == [d[0]] + (d[1..] + b);
      SkipMarked(d[1..], b, pat);
      assert NoTag([d[0]]);
      SkipPlain([d[0]], d[1..] + b, pat);
    }
  }

  // ----- locating the definition in the page body -------------------------

  lemma {:induction false} IndentNoTag(n: nat)
    ensures NoTag(Indent(n)) && NoTag("\n" + Indent(n))
    decreases n
  {
    if n > 0 {
      IndentNoTag(n - 1);
      assert Indent(n)[1..] == Indent(n - 1);
    }
    NoTagAppend("\n", Indent(n));
  }

  /** A template line: a tag, then a line break and indentation. */
  lemma {:induction false} TaggedLine(a: string, n: nat)
    requires OneTag(a)
    ensures OneTag(a + "\n" + Indent(n))
    ensures (a + "\n" + Indent(n))[..|a|] == a
  {
    IndentNoTag(n);
    assert NoTag("\n");
    OneTagAppend(a, "\n");
    OneTagAppend(a + "\n", Indent(n));
  }

  lemma {:induction false} TagLiteral(t: string)
    requires |t| > 0 && t[0] == '<'
    requires forall k | 1 <= k < |t| :: t[k] != '<'
    ensures OneTag(t)
  {
    NoTagAfter(t, 1);
  }

  lemma MacroLine()
    ensures OneTag("<ac:structured-macro ac:name=\"details\">" + "\n" + Indent(14))
    ensures ("<ac:structured-macro ac:name=\"details\">" + "\n" + Indent(14))[1] == 'a'
  {
    TagLiteral("<ac:structured-macro ac:name=\"details\">");
    TaggedLine("<ac:structured-macro ac:name=\"details\">", 14);
  }

  lemma BodyLine()
    ensures OneTag("<ac:rich-text-body>" + "\n" + Indent(16))
    ensures ("<ac:rich-text-body>" + "\n" + Indent(16))[1] == 'a'
  {
    TagLiteral("<ac:rich-text-body>");
    TaggedLine("<ac:rich-text-body>", 16);
  }

  // Each piece of the template, and how a search for a tag pattern `pat`
  // goes through it. The pattern only has to differ from the piece's tag.

  predicate TagPattern(pat: string)
  {
    |pat| > 2 && pat[0] == '<'
  }

  lemma {:induction false} SkipLine(n: nat, b: string, pat: string)
    requires TagPattern(pat)
    ensures FindFrom(("\n" + Indent(n)) + b, pat, 0) == Shift(FindFrom(b, pat, 0), n + 1)
  {
    IndentNoTag(n);
    SkipPlain("\n" + Indent(n), b, pat);
  }

  lemma {:induction false} SkipMacroLine(b: string, pat: string)
    requires TagPattern(pat) && pat[1] != 'a'
    ensures FindFrom(("<ac:structured-macro ac:name=\"details\">" + "\n" + Indent(14)) + b, pat, 0)
         == Shift(FindFrom(b, pat, 0), |"<ac:structured-macro ac:name=\"details\">" + "\n" + Indent(14)|)
  {
    MacroLine();
    SkipTag("<ac:structured-macro ac:name=\"details\">" + "\n" + Indent(14), b, pat, 1);
  }

  lemma {:induction false} SkipBodyLine(b: string, pat: string)
    requires TagPattern(pat) && pat[1] != 'a'
    ensures FindFrom(("<ac:rich-text-body>" + "\n" + Indent(16)) + b, pat, 0)
         == Shift(FindFrom(b, pat, 0), |"<ac:rich-text-body>" + "\n" + Indent(16)|)
  {
    BodyLine();
    SkipTag("<ac:rich-text-body>" + "\n" + Indent(16), b, pat, 1);
  }

  /** An opening tag of a table row or cell, `<tr>` or `<td>`. */
  lemma {:induction false} SkipOpen(t: string, b: string, pat: string)
    requires |t| == 4 && t[0] == '<' && t[1] == 't' && 'a' <= t[2] <= 'z' && t[3] == '>'
    requires TagPattern(pat) && (pat[1] != 't' || pat[2] != t[2])
    ensures FindFrom(t + b, pat, 0) == Shift(FindFrom(b, pat, 0), 4)
  {
    TagLiteral(t);
    if pat[1] != 't' { SkipTag(t, b, pat, 1); } else { SkipTag(t, b, pat, 2); }
  }

  lemma {:induction false} SkipHeading(b: string, pat: string)
    requires TagPattern(pat) && (pat[1] != 't' || pat[2] != 'h')
    ensures FindFrom("<th>Definition" + b, pat, 0) == Shift(FindFrom(b, pat, 0), 14)
  {
    TagLiteral("<th>Definition");
    if pat[1] != 't' { SkipTag("<th>Definition", b, pat, 1); } else { SkipTag("<th>Definition", b, pat, 2); }
  }

  /** A closing tag of a heading or cell, `</th>` or `</td>`. */
  lemma {:induction false} SkipClose(t: string, b: string, pat: string)
    requires |t| == 5 && t[0] == '<' && t[1] == '/' && t[2] == 't' && 'a' <= t[3] <= 'z' && t[4] == '>'
    requires TagPattern(pat) && (pat[1] != '/' || pat[2] != 't' || (|pat| > 3 && pat[3] != t[3]))
    ensures FindFrom(t + b, pat, 0) == Shift(FindFrom(b, pat, 0), 5)
  {
    TagLiteral(t);
    if pat[1] != '/' { SkipTag(t, b, pat, 1); }
    else if pat[2] != 't' { SkipTag(t, b, pat, 2); }
    else { SkipTag(t, b, pat, 3); }
  }

  lemma {:induction false} SkipRowClose(n: nat, b: string, pat: string)
    requires TagPattern(pat) && (pat[1] != '/' || pat[2] != 't' || (|pat| > 3 && pat[3] != 'r'))
    ensures FindFrom(("</tr>" + "\n" + Indent(n)) + b, pat, 0) == Shift(FindFrom(b, pat, 0), 6 + n)
  {
    TagLiteral("</tr>");
    TaggedLine("</tr>", n);
    var a := "</tr>" + "\n" + Indent(n);
    assert a[1] == '/' && a[2] == 't' && a[3] == 'r';
    if pat[1] != '/' { SkipTag(a, b, pat, 1); }
    else if pat[2] != 't' { SkipTag(a, b, pat, 2); }
    else { SkipTag(a, b, pat, 3); }
  }

  lemma PatternsLower()
    ensures LowerFrom(TableOpen, 0) && LowerFrom(TableClose, 0)
    ensures LowerFrom(CellOpen, 0) && LowerFrom(CellClose, 0)
    ensures LowerFrom(">", 0)
  {
  }

  /** The heading row of the table and the opening of the next row hold
      no tag that starts like `</table>` or like `<td`. */
  lemma {:induction false} SkipHeadingRow(b: string, pat: string)
    requires TagPattern(pat) && pat[1] != 'a' && pat[2] != 'r' && pat[2] != 'h'
    requires pat[1] != '/' || (|pat| > 3 && pat[3] != 'r' && pat[3] != 'h')
    ensures FindFrom("<tr>" + ("<th>Definition" + ("</th>" + (("</tr>" + "\n" + Indent(18)) + ("<tr>" + b)))), pat, 0)
         == Shift(FindFrom(b, pat, 0), 51)
  {
    var s4 := ("</tr>" + "\n" + Indent(18)) + ("<tr>" + b);
    SkipOpen("<tr>", b, pat);
    SkipRowClose(18, "<tr>" + b, pat);
    SkipClose("</th>", s4, pat);
    SkipHeading("</th>" + s4, pat);
    SkipOpen("<tr>", "<th>Definition" + ("</th>" + s4), pat);
  }

  /** The definition row holds no tag that starts like `</table>`. */
  lemma {:induction false} SkipDefinitionRow(d: string, b: string, pat: string)
    requires AnglesOnlyInMarkers(d)
    requires TagPattern(pat) && |pat| > 3 && pat[1] == '/' && pat[2] == 't' && pat[3] == 'a'
    ensures FindFrom("<td>" + (d + ("</td>" + (("</tr>" + "\n" + Indent(16)) + b))), pat, 0)
         == Shift(FindFrom(b, pat, 0), |d| + 31)
  {
    var f := FindFrom(b, pat, 0);
    var s9 := ("</tr>" + "\n" + Indent(16)) + b;
    SkipRowClose(16, b, pat);
    SkipClose("</td>", s9, pat);
    ShiftShift(f, 22, 5);
    SkipMarked(d, "</td>" + s9, pat);
    ShiftShift(f, 27, |d|);
    SkipOpen("<td>", d + ("</td>" + s9), pat);
    ShiftShift(f, 27 + |d|, 4);
  }

  lemma {:induction false} AppendAssoc<T>(x: seq<T>, y: seq<T>, z: seq<T>)
    ensures (x + y) + z == x + (y + z)
  {
  }

  /** The table content followed by more text, regrouped piece by piece. */
  lemma TableContentAppend(d: string, b: string)
    ensures TableContent(d) + b
         == ("\n" + Indent(18)) + ("<tr>" + ("<th>Definition" + ("</th>" + (("</tr>" + "\n" + Indent(18))
            + ("<tr>" + ("<td>" + (d + ("</td>" + (("</tr>" + "\n" + Indent(16)) + b)))))))))
  {
    var t9 := "</tr>" + "\n" + Indent(16);
    var r8 := "</td>" + t9;
    var r7 := d + r8;
    var r6 := "<td>" + r7;
    var r5 := "<tr>" + r6;
    var r4 := ("</tr>" + "\n" + Indent(18)) + r5;
    var r3 := "</th>" + r4;
    var r2 := "<th>Definition" + r3;
    var r1 := "<tr>" + r2;
    assert TableContent(d) == ("\n" + Indent(18)) + r1;
    AppendAssoc("\n" + Indent(18), r1, b);
    AppendAssoc("<tr>", r2, b);
    AppendAssoc("<th>Definition", r3, b);
    AppendAssoc("</th>", r4, b);
    AppendAssoc("</tr>" + "\n" + Indent(18), r5, b);
    AppendAssoc("<tr>", r6, b);
    AppendAssoc("<td>", r7, b);
    AppendAssoc(d, r8, b);
    AppendAssoc("</td>", t9, b);
  }

  /** The search for `</table>` goes through the table's content. */
  lemma {:induction false} TableContentSkip(d: string, b: string, pat: string)
    requires AnglesOnlyInMarkers(d)
    requires TagPattern(pat) && |pat| > 3 && pat[1] == '/' && pat[2] == 't' && pat[3] == 'a'
    ensures FindFrom(TableContent(d) + b, pat, 0) == Shift(FindFrom(b, pat, 0), |TableContent(d)|)
  {
    var f := FindFrom(b, pat, 0);
    var row := "<td>" + (d + ("</td>" + (("</tr>" + "\n" + Indent(16)) + b)));
    var s1 := "<tr>" + ("<th>Definition" + ("</th>" + (("</tr>" + "\n" + Indent(18)) + ("<tr>" + row))));
    TableContentAppend(d, b);
    SkipDefinitionRow(d, b, pat);
    SkipHeadingRow(row, pat);
    ShiftShift(f, |d| + 31, 51);
    SkipLine(18, s1, pat);
    ShiftShift(f, |d| + 82, 19);
    assert |TableContent(d)| == |d| + 101;
  }

  /** The first element found has the content that sits between `open>`
      and `close`, once `open` is found where it starts and nothing that
      looks like `close` comes earlier in the content. */
  lemma {:induction false} GroupAt(a: string, open: string, m: string, close: string, b: string)
    requires FindFrom(a + (open + (">" + (m + (close + b)))), open, 0) == Some(|a|)
    requires FindFrom(m + (close + b), close, 0) == Some(|m|)
    ensures Group(a + (open + (">" + (m + (close + b)))), open, close) == Some(m)
  {
    var t := m + (close + b);
    var s := a + (open + (">" + t));
    var pre := a + open;
    AppendAssoc(a, open, ">" + t);
    assert LowerFrom(">", 0);
    FoundAtStart(">", t);
    FindFromAppend(pre, ">" + t, ">", 0);
    AppendAssoc(pre, ">", t);
    FindFromAppend(pre + ">", t, close, 0);
    assert FindElement(s, open, close) == Some(Element(|a|, |pre|, |pre| + 1 + |m|));
    assert s[|pre| + 1..|pre| + 1 + |m|] == m;
  }

  /** The page body up to its table. */
  function MacroOpen(): string
  {
    ("\n" + Indent(12)) + (("<ac:structured-macro ac:name=\"details\">" + "\n" + Indent(14))
      + ("<ac:rich-text-body>" + "\n" + Indent(16)))
  }

  /** The page body after its table. */
  function MacroClose(): string
  {
    ("\n" + Indent(14)) + (("</ac:rich-text-body>" + "\n" + Indent(12)) + ("</ac:structured-macro>" + "\n" + Indent(12)))
  }

  lemma {:induction false} BodyForm(d: string)
    ensures StorageBody(d) == MacroOpen() + (TableOpen + (">" + (TableContent(d) + (TableClose + MacroClose()))))
  {
    var p1 := "\n" + Indent(12);
    var p2 := "<ac:structured-macro ac:name=\"details\">" + "\n" + Indent(14);
    var p3 := "<ac:rich-text-body>" + "\n" + Indent(16);
    var q := ("</ac:rich-text-body>" + "\n" + Indent(12)) + ("</ac:structured-macro>" + "\n" + Indent(12));
    var y := TableContent(d) + (("</table>" + "\n" + Indent(14)) + q);
    assert StorageBody(d) == p1 + (p2 + (p3 + ("<table>" + y)));
    assert "<table>" == TableOpen + ">";
    AppendAssoc(TableOpen, ">", y);
    AppendAssoc("</table>" + "\n", Indent(14), q);
    AppendAssoc("</table>", "\n", Indent(14));
    AppendAssoc("</table>", "\n" + Indent(14), q);
    AppendAssoc(p1, p2, p3);
    AppendAssoc(p1 + p2, p3, "<table>" + y);
    AppendAssoc(p1, p2, p3 + ("<table>" + y));
  }

  /** The two macro lines hold no tag that starts like `pat`. */
  lemma {:induction false} SkipMacroLines(y: string, pat: string)
    requires TagPattern(pat) && pat[1] != 'a'
    ensures var p2 := "<ac:structured-macro ac:name=\"details\">" + "\n" + Indent(14);
      var p3 := "<ac:rich-text-body>" + "\n" + Indent(16);
      FindFrom(p2 + (p3 + y), pat, 0) == Shift(FindFrom(y, pat, 0), |p2| + |p3|)
  {
    var p3 := "<ac:rich-text-body>" + "\n" + Indent(16);
    SkipBodyLine(y, pat);
    SkipMacroLine(p3 + y, pat);
  }

  /** The page body up to its table holds no tag that starts like `pat`. */
  lemma {:induction false} SkipMacroOpen(y: string, pat: string)
    requires TagPattern(pat) && pat[1] != 'a'
    ensures FindFrom(MacroOpen() + y, pat, 0) == Shift(FindFrom(y, pat, 0), |MacroOpen()|)
  {
    var p1 := "\n" + Indent(12);
    var p2 := "<ac:structured-macro ac:name=\"details\">" + "\n" + Indent(14);
    var p3 := "<ac:rich-text-body>" + "\n" + Indent(16);
    AppendAssoc(p1, p2 + p3, y);
    AppendAssoc(p2, p3, y);
    SkipMacroLines(y, pat);
    SkipLine(12, p2 + (p3 + y), pat);
  }

  /** The first `<table` of the page body is the one the template writes. */
  lemma {:induction false} TableOpenFound(x: string, pat: string)
    requires pat == TableOpen
    ensures FindFrom(MacroOpen() + (pat + x), pat, 0) == Some(|MacroOpen()|)
  {
    assert TagPattern(pat) && pat[1] == 't';
    PatternsLower();
    FoundAtStart(pat, x);
    SkipMacroOpen(pat + x, pat);
  }

  /** The first table of the page body holds exactly the table content. */
  lemma {:induction false} TableFound(d: string)
    requires AnglesOnlyInMarkers(d)
    ensures Group(StorageBody(d), TableOpen, TableClose) == Some(TableContent(d))
  {
    var tc := TableContent(d);
    BodyForm(d);
    TableOpenFound(">" + (tc + (TableClose + MacroClose())), TableOpen);
    assert TagPattern(TableClose) && |TableClose| > 3 && TableClose[1] == '/' && TableClose[2] == 't' && TableClose[3] == 'a';
    assert LowerFrom(TableClose, 0);
    FoundAtStart(TableClose, MacroClose());
    TableContentSkip(d, TableClose + MacroClose(), TableClose);
    GroupAt(MacroOpen(), TableOpen, tc, TableClose, MacroClose());
  }

  /** The table content up to the definition's cell. */
  function HeadRows(): string
  {
    ("\n" + Indent(18)) + ("<tr>" + ("<th>Definition" + ("</th>" + (("</tr>" + "\n" + Indent(18)) + "<tr>"))))
  }

  /** The table content after the definition's cell. */
  function RowEnd(): string
  {
    "</tr>" + "\n" + Indent(16)
  }

  lemma {:induction false} ContentForm(d: string)
    ensures TableContent(d) == HeadRows() + (CellOpen + (">" + (d + (CellClose + RowEnd()))))
  {
    var y := d + (CellClose + RowEnd());
    assert "<td>" == CellOpen + ">";
    AppendAssoc(CellOpen, ">", y);
    var h4 := "</tr>" + "\n" + Indent(18);
    var x := CellOpen + (">" + y);
    AppendAssoc(h4, "<tr>", x);
    AppendAssoc("</th>", h4 + "<tr>", x);
    AppendAssoc("<th>Definition", "</th>" + (h4 + "<tr>"), x);
    AppendAssoc("<tr>", "<th>Definition" + ("</th>" + (h4 + "<tr>")), x);
    AppendAssoc("\n" + Indent(18), "<tr>" + ("<th>Definition" + ("</th>" + (h4 + "<tr>"))), x);
  }

  /** The first `<td` of the table content is the definition's cell. */
  lemma {:induction false} CellOpenFound(x: string, pat: string)
    requires pat == CellOpen
    ensures FindFrom(HeadRows() + (pat + x), pat, 0) == Some(|HeadRows()|)
  {
    var h4 := "</tr>" + "\n" + Indent(18);
    var r := "<tr>" + ("<th>Definition" + ("</th>" + (h4 + ("<tr>" + (pat + x)))));
    AppendAssoc(h4, "<tr>", pat + x);
    AppendAssoc("</th>", h4 + "<tr>", pat + x);
    AppendAssoc("<th>Definition", "</th>" + (h4 + "<tr>"), pat + x);
    AppendAssoc("<tr>", "<th>Definition" + ("</th>" + (h4 + "<tr>")), pat + x);
    AppendAssoc("\n" + Indent(18), "<tr>" + ("<th>Definition" + ("</th>" + (h4 + "<tr>"))), pat + x);
    assert TagPattern(pat) && pat[1] == 't' && pat[2] == 'd' && LowerFrom(pat, 0);
    FoundAtStart(pat, x);
    SkipHeadingRow(pat + x, pat);
    SkipLine(18, r, pat);
  }

  /** The first cell of the table content holds exactly the definition. */
  lemma {:induction false} CellFound(d: string)
    requires AnglesOnlyInMarkers(d)
    ensures Group(TableContent(d), CellOpen, CellClose) == Some(d)
  {
    ContentForm(d);
    CellOpenFound(">" + (d + (CellClose + RowEnd())), CellOpen);
    assert TagPattern(CellClose) && CellClose[1] == '/' && LowerFrom(CellClose, 0);
    FoundAtStart(CellClose, RowEnd());
    SkipMarked(d, CellClose + RowEnd(), CellClose);
    GroupAt(HeadRows(), CellOpen, d, CellClose, RowEnd());
  }

  // ----- the round trip ---------------------------------------------------

  /** Encoded text holds no paragraph element. */
  lemma NoParagraphs(d: string)
    requires AnglesOnlyInMarkers(d)
    ensures FindAll(d, ParaOpen, ParaClose) == []
  {
    assert |ParaOpen| > 1 && ParaOpen[0] == '<' && ParaOpen[1] != 'b';
    SkipMarked(d, [], ParaOpen);
    assert d + [] == d;
  }

  /** What the decoder reads back from a page the importer wrote: the
      trimmed definition with its newlines deleted. */
  lemma {:induction false} RoundTrip(raw: string)
    ensures Decode(StorageBody(FormatMultiline(Strip(raw)))) == RemoveNewlines(Strip(raw))
  {
    var t := Strip(raw);
    var e := Escape(t);
    var d := FormatMultiline(t);
    assert d == ReplaceNewlines(e);
    FormatMultilineShape(t);
    TableFound(d);
    CellFound(d);
    assert CellOf(StorageBody(d)) == Some(d);
    NoParagraphs(d);
    assert Decode(StorageBody(d)) == Strip(Unescape(StripTags(d)));
    StripTagsMarkers(e);
    RemoveNewlinesEscape(t);
    UnescapeEscape(RemoveNewlines(t));
    RemoveNewlinesTrimmed(t);
  }

  lemma {:induction false} JoinedLines(a: string, b: string)
    requires '\n' !in a && '\n' !in b
    ensures RemoveNewlines(a + "\n" + b) == a + b
  {
    RemoveNewlinesAppend(a + "\n", b);
    RemoveNewlinesAppend(a, "\n");
    assert RemoveNewlines("\n") == [];
    RemoveNewlinesKeeps(a);
    RemoveNewlinesKeeps(b);
  }

  /** A definition of two lines comes back as one line: the two lines
      joined with nothing between them. */
  lemma {:induction false} RoundTripJoinsLines(a: string, b: string)
    requires '\n' !in a && '\n' !in b
    requires Trimmed(a + "\n" + b)
    ensures Decode(StorageBody(FormatMultiline(Strip(a + "\n" + b)))) == a + b
  {
    var x := a + "\n" + b;
    RoundTrip(x);
    assert Strip(x) == x;
    JoinedLines(a, b);
  }
}
