/**
 * The encoding half of the glossary markup codec: HTML escaping, the
 * newline-to-`<br />` rewrite, the storage-format page body that wraps a
 * definition in a "details" macro around a one-cell table, and the entity
 * decoding that undoes the escaping.
 */
module Codec {
  import opened Text

  /** The line-break marker that replaces every newline. */
  const LineBreak: string := "<br />"

  /** Python `html.escape` (with `quote=True`) on one character. */
  function EscapeChar(c: char): string
  {
    match c
    case '&' => "&amp;"
    case '<' => "&lt;"
    case '>' => "&gt;"
    case '"' => "&quot;"
    case '\'' => "&#x27;"
    case _ => [c]
  }

  /** A character's escape is not empty, has no `<`, `>` or quote, and is a
      newline exactly when the character is one. */
  lemma EscapeCharShape(c: char)
    ensures |EscapeChar(c)| >= 1
    ensures '<' !in EscapeChar(c) && '>' !in EscapeChar(c) && '"' !in EscapeChar(c) && '\'' !in EscapeChar(c)
    ensures '\n' in EscapeChar(c) <==> c == '\n'
  {
    match c
    case '&' =>
    case '<' =>
    case '>' =>
    case '"' =>
    case '\'' =>
    case _ => assert EscapeChar(c) == [c];
  }

  /** Python `html.escape(s)`: each of `& < > " '` becomes its character
      reference; every other character is kept. */
  function Escape(s: string): (r: string)
    ensures |r| >= |s|
    ensures r == [] <==> s == []
    ensures '<' !in r && '>' !in r && '"' !in r && '\'' !in r
    ensures '\n' in r <==> '\n' in s
    decreases |s|
  {
    if s == [] then []
    else
      EscapeCharShape(s[0]);
      EscapeChar(s[0]) + Escape(s[1..])
  }

  /** Python `s.replace('\n', '<br />')`. */
  function ReplaceNewlines(s: string): string
    decreases |s|
  {
    if s == [] then []
    else if s[0] == '\n' then LineBreak + ReplaceNewlines(s[1..])
    else [s[0]] + ReplaceNewlines(s[1..])
  }

  /** `html_format_multiline`: escape, then turn every newline into a
      `<br />` marker. */
  function FormatMultiline(text: string): (r: string)
    ensures '\n' !in r
    ensures r == [] <==> text == []
  {
    EscapeKeepsNewlineCount(text);
    NoNewlineAfterReplace(Escape(text));
    ReplaceNewlines(Escape(text))
  }

  // ----- facts about the encoder ------------------------------------------

  function CountChar(s: string, c: char): nat
    decreases |s|
  {
    if s == [] then 0 else (if s[0] == c then 1 else 0) + CountChar(s[1..], c)
  }

  /** Number of `<br />` markers, counted left to right without overlap
      (Python `str.count`). */
  function CountMarkers(s: string): nat
    decreases |s|
  {
    if |s| < |LineBreak| then 0
    else if s[..|LineBreak|] == LineBreak then 1 + CountMarkers(s[|LineBreak|..])
    else CountMarkers(s[1..])
  }

  /** Every `<` and `>` of `s` belongs to a whole `<br />` marker. */
  predicate AnglesOnlyInMarkers(s: string)
    decreases |s|
  {
    || s == []
    || (|s| >= |LineBreak| && s[..|LineBreak|] == LineBreak
        && AnglesOnlyInMarkers(s[|LineBreak|..]))
    || (s[0] != '<' && s[0] != '>' && AnglesOnlyInMarkers(s[1..]))
  }

  lemma {:induction false} EscapeKeepsNewlineCount(s: string)
    ensures CountChar(Escape(s), '\n') == CountChar(s, '\n')
    decreases |s|
  {
    if s != [] {
      EscapeKeepsNewlineCount(s[1..]);
      CountCharAppend(EscapeChar(s[0]), Escape(s[1..]), '\n');
      if s[0] in "&<>\"'" {
        CountCharAbsent(EscapeChar(s[0]), '\n');
      } else {
        assert EscapeChar(s[0]) == [s[0]];
      }
    }
  }

  lemma {:induction false} CountCharAbsent(s: string, c: char)
    requires c !in s
    ensures CountChar(s, c) == 0
    decreases |s|
  {
    if s != [] {
      assert s[1..] == s[1..] && forall k | 0 <= k < |s[1..]| :: s[1..][k] == s[k + 1];
      CountCharAbsent(s[1..], c);
    }
  }

  lemma {:induction false} CountCharAppend(a: string, b: string, c: char)
    ensures CountChar(a + b, c) == CountChar(a, c) + CountChar(b, c)
    decreases |a|
  {
    if a != [] {
      assert (a + b)[0] == a[0];
      assert (a + b)[1..] == a[1..] + b;
      CountCharAppend(a[1..], b, c);
    } else {
      assert a + b == b;
    }
  }

  lemma {:induction false} NoNewlineAfterReplace(s: string)
    ensures '\n' !in ReplaceNewlines(s)
    ensures ReplaceNewlines(s) == [] <==> s == []
    decreases |s|
  {
    if s != [] {
      NoNewlineAfterReplace(s[1..]);
    }
  }

  /** A character that is not `<` cannot start a marker. */
  lemma MarkersAfterPlainChar(c: char, t: string)
    requires c != '<' && c != '>'
    ensures CountMarkers([c] + t) == CountMarkers(t)
    ensures AnglesOnlyInMarkers(t) ==> AnglesOnlyInMarkers([c] + t)
  {
    var s := [c] + t;
    assert s[1..] == t;
    if |s| >= |LineBreak| {
      assert s[..|LineBreak|][0] == c;
    }
  }

  lemma MarkersAfterMarker(t: string)
    ensures CountMarkers(LineBreak + t) == 1 + CountMarkers(t)
    ensures AnglesOnlyInMarkers(t) ==> AnglesOnlyInMarkers(LineBreak + t)
  {
    var s := LineBreak + t;
    assert s[..|LineBreak|] == LineBreak;
    assert s[|LineBreak|..] == t;
  }

  /** Text without `<` keeps its marker count when a `<`-free string is
      put in front of it. */
  lemma {:induction false} PlainPrefix(a: string, t: string)
    requires '<' !in a && '>' !in a
    ensures CountMarkers(a + t) == CountMarkers(t)
    ensures AnglesOnlyInMarkers(t) ==> AnglesOnlyInMarkers(a + t)
    decreases |a|
  {
    if a != [] {
      assert a + t == [a[0]] + (a[1..] + t);
      assert '<' !in a[1..] && '>' !in a[1..] by {
        forall k | 0 <= k < |a[1..]| ensures a[1..][k] != '<' && a[1..][k] != '>' {
          assert a[1..][k] == a[k + 1];
        }
      }
      assert a[0] in a;
      PlainPrefix(a[1..], t);
      MarkersAfterPlainChar(a[0], a[1..] + t);
    } else {
      assert a + t == t;
    }
  }

  /** The marker rewrite of `<`/`>`-free text: one marker per newline, and
      no angle bracket outside a marker. */
  lemma {:induction false} ReplaceNewlinesMarkers(e: string)
    requires '<' !in e && '>' !in e
    ensures CountMarkers(ReplaceNewlines(e)) == CountChar(e, '\n')
    ensures AnglesOnlyInMarkers(ReplaceNewlines(e))
    decreases |e|
  {
    if e != [] {
      assert '<' !in e[1..] && '>' !in e[1..] by {
        forall k | 0 <= k < |e[1..]| ensures e[1..][k] != '<' && e[1..][k] != '>' {
          assert e[1..][k] == e[k + 1];
        }
      }
      ReplaceNewlinesMarkers(e[1..]);
      if e[0] == '\n' {
        MarkersAfterMarker(ReplaceNewlines(e[1..]));
      } else {
        PlainPrefix([e[0]], ReplaceNewlines(e[1..]));
      }
    }
  }

  /** The encoder's output has no raw newline, no `<` or `>` outside a
      `<br />` marker, and exactly one marker per newline of the input. */
  lemma FormatMultilineShape(text: string)
    ensures '\n' !in FormatMultiline(text)
    ensures AnglesOnlyInMarkers(FormatMultiline(text))
    ensures CountMarkers(FormatMultiline(text)) == CountChar(text, '\n')
  {
    ReplaceNewlinesMarkers(Escape(text));
    EscapeKeepsNewlineCount(text);
  }

  // ----- decoding entity references ---------------------------------------

  /** Python `html.unescape`, restricted to the five references that
      `html.escape` produces; any other `&` is kept as it is. */
  function Unescape(s: string): string
    decreases |s|
  {
    if s == [] then []
    else if s[0] != '&' then [s[0]] + Unescape(s[1..])
    else if |s| >= 5 && s[..5] == "&amp;" then "&" + Unescape(s[5..])
    else if |s| >= 4 && s[..4] == "&lt;" then "<" + Unescape(s[4..])
    else if |s| >= 4 && s[..4] == "&gt;" then ">" + Unescape(s[4..])
    else if |s| >= 6 && s[..6] == "&quot;" then "\"" + Unescape(s[6..])
    else if |s| >= 6 && s[..6] == "&#x27;" then "'" + Unescape(s[6..])
    else "&" + Unescape(s[1..])
  }

  /** Text without `&` has nothing to unescape. */
  lemma {:induction false} UnescapePlain(s: string)
    requires '&' !in s
    ensures Unescape(s) == s
    decreases |s|
  {
    if s != [] {
      assert '&' !in s[1..] by {
        forall k | 0 <= k < |s| - 1 ensures s[1..][k] != '&' {
          assert s[1..][k] == s[k + 1];
        }
      }
      UnescapePlain(s[1..]);
    }
  }

  lemma UnescapeChunk(c: char, t: string)
    ensures Unescape(EscapeChar(c) + t) == [c] + Unescape(t)
  {
    var s := EscapeChar(c) + t;
    var e := EscapeChar(c);
    assert s[..|e|] == e && s[|e|..] == t;
    if c == '&' {
      assert s[..5] == "&amp;";
    } else if c == '<' {
      assert |s| >= 5 ==> s[..5][1] == 'l';
    } else if c == '>' {
      assert |s| >= 5 ==> s[..5][1] == 'g';
      assert s[..4][1] == 'g';
    } else if c == '"' {
      assert s[..5][1] == 'q' && s[..4][1] == 'q';
    } else if c == '\'' {
      assert s[..5][1] == '#' && s[..4][1] == '#' && s[..6][1] == '#';
    } else {
      assert s[1..] == t;
    }
  }

  /** Unescaping undoes escaping, for every text. */
  lemma {:induction false} UnescapeEscape(s: string)
    ensures Unescape(Escape(s)) == s
    decreases |s|
  {
    if s != [] {
      UnescapeChunk(s[0], Escape(s[1..]));
      UnescapeEscape(s[1..]);
    }
  }

  // ----- the storage-format page body -------------------------------------

  /** `n` spaces of source indentation. */
  function Indent(n: nat): (r: string)
    ensures |r| == n && forall k | 0 <= k < n :: r[k] == ' '
  {
    seq(n, _ => ' ')
  }

  /** The content of the table, from just after `<table>` to just before
      `</table>`: a heading row and the row whose only cell holds the
      encoded definition. Written as nested concatenations of the template's
      lines, each piece starting at a `<`. */
  function TableContent(definition: string): string
  {
    ("\n" + Indent(18))
    + ("<tr>"
    + ("<th>Definition"
    + ("</th>"
    + (("</tr>" + "\n" + Indent(18))
    + ("<tr>"
    + ("<td>"
    + (definition
    + ("</td>"
    + ("</tr>" + "\n" + Indent(16))))))))))
  }

  /** The page body that `main` posts for a term: a "details" macro around
      a one-cell table, with the template's own line breaks and indentation. */
  function StorageBody(definition: string): (r: string)
    ensures |r| > |definition|
  {
    ("\n" + Indent(12))
    + (("<ac:structured-macro ac:name=\"details\">" + "\n" + Indent(14))
    + (("<ac:rich-text-body>" + "\n" + Indent(16))
    + ("<table>"
    + (TableContent(definition)
    + (("</table>" + "\n" + Indent(14))
    + (("</ac:rich-text-body>" + "\n" + Indent(12))
    + ("</ac:structured-macro>" + "\n" + Indent(12))))))))
  }
}
