/**
 * The decoding half of the glossary markup codec: `extract_definition_from_html`.
 * The definition is read from the first cell of the first table of a page
 * body. A cell made of `<p>` paragraphs is cleaned paragraph by paragraph
 * and its whitespace normalised; any other cell is only stripped of tags,
 * unescaped and trimmed.
 */
module Decoder {
  import opened Text
  import opened Optional
  import opened Codec
  import opened Scan
  import opened Whitespace

  const TableOpen: string := "<table"
  const TableClose: string := "</table>"
  const CellOpen: string := "<td"
  const CellClose: string := "</td>"
  const ParaOpen: string := "<p"
  const ParaClose: string := "</p>"

  // ----- the paragraph branch ---------------------------------------------

  /** Python `"\n".join(ps)`. */
  function JoinLines(ps: seq<string>): string
    decreases |ps|
  {
    if ps == [] then []
    else if |ps| == 1 then ps[0]
    else ps[0] + "\n" + JoinLines(ps[1..])
  }

  /** One paragraph: strip its tags, unescape it, trim it. */
  function CleanParagraph(p: string): string
  {
    Strip(Unescape(StripTags(p)))
  }

  // ----- the decoder --------------------------------------------------------

  /** `match.group(1)` of `re.search(r"<tag.*?>(.*?)</tag>", s, ...)`:
      the text between the first element's opening and closing tags. */
  function Group(s: string, open: string, close: string): (r: Option<string>)
    ensures r.None? <==> FindElement(s, open, close).None?
  {
    match FindElement(s, open, close)
    case None => None
    case Some(e) => Some(s[e.gt + 1..e.close])
  }

  /** The text of the first cell of the first table, if there are both. */
  function CellOf(body: string): Option<string>
  {
    match Group(body, TableOpen, TableClose)
    case None => None
    case Some(table) => Group(table, CellOpen, CellClose)
  }

  /** Each paragraph cleaned, in order. */
  function CleanAll(paragraphs: seq<string>): (r: seq<string>)
    ensures |r| == |paragraphs|
    ensures forall k | 0 <= k < |r| :: r[k] == CleanParagraph(paragraphs[k])
    decreases |paragraphs|
  {
    if paragraphs == [] then []
    else [CleanParagraph(paragraphs[0])] + CleanAll(paragraphs[1..])
  }

  /** The definition held by a table cell. */
  function DecodeCell(cell: string): (r: string)
    ensures Trimmed(r)
  {
    var paragraphs := FindAll(cell, ParaOpen, ParaClose);
    if paragraphs == [] then Strip(Unescape(StripTags(cell)))
    else Normalise(JoinLines(CleanAll(paragraphs)))
  }

  /** `extract_definition_from_html` as a function of the page body. */
  function Decode(body: string): (r: string)
    ensures Trimmed(r)
  {
    match CellOf(body)
    case None => ""
    case Some(cell) => DecodeCell(cell)
  }

  /** The loop of `extract_definition_from_html` that cleans the
      paragraphs one by one and appends each to the list. */
  method CleanParagraphs(paragraphs: seq<string>) returns (cleanParagraphs: seq<string>)
    ensures |cleanParagraphs| == |paragraphs|
    ensures forall k | 0 <= k < |paragraphs| :: cleanParagraphs[k] == CleanParagraph(paragraphs[k])
  {
    cleanParagraphs := [];
    for i := 0 to |paragraphs|
      invariant |cleanParagraphs| == i
      invariant forall k | 0 <= k < i :: cleanParagraphs[k] == CleanParagraph(paragraphs[k])
    {
      var pText := Strip(Unescape(StripTags(paragraphs[i])));
      cleanParagraphs := cleanParagraphs + [pText];
    }
  }

  // Decode unfolded one step at a time, for the method below.

  lemma DecodeNoCell(body: string)
    requires CellOf(body).None?
    ensures Decode(body) == ""
  {
  }

  lemma DecodeOfCell(body: string, cell: string)
    requires CellOf(body) == Some(cell)
    ensures Decode(body) == DecodeCell(cell)
  {
  }

  lemma DecodeCellParagraphs(cell: string, clean: seq<string>)
    requires FindAll(cell, ParaOpen, ParaClose) != []
    requires |clean| == |FindAll(cell, ParaOpen, ParaClose)|
    requires forall k | 0 <= k < |clean| :: clean[k] == CleanParagraph(FindAll(cell, ParaOpen, ParaClose)[k])
    ensures DecodeCell(cell) == Strip(CollapseGaps(CollapseBlanks(JoinLines(clean))))
  {
    assert clean == CleanAll(FindAll(cell, ParaOpen, ParaClose));
  }

  /** `extract_definition_from_html`, step by step: the first table, its
      first cell, the paragraphs, the cleaning loop, and the substitutions
      that normalise the joined text. */
  method ExtractDefinition(htmlContent: string) returns (definition: string)
    ensures definition == Decode(htmlContent)
  {
    var tableHtml := Group(htmlContent, TableOpen, TableClose);
    if tableHtml.None? {
      DecodeNoCell(htmlContent);
      return "";
    }
    var tdHtml := Group(tableHtml.value, CellOpen, CellClose);
    if tdHtml.None? {
      DecodeNoCell(htmlContent);
      return "";
    }
    DecodeOfCell(htmlContent, tdHtml.value);
    var paragraphs := FindAll(tdHtml.value, ParaOpen, ParaClose);
    if paragraphs == [] {
      var text := StripTags(tdHtml.value);
      return Strip(Unescape(text));
    }
    var cleanParagraphs := CleanParagraphs(paragraphs);
    DecodeCellParagraphs(tdHtml.value, cleanParagraphs);
    definition := JoinLines(cleanParagraphs);
    definition := CollapseBlanks(definition);
    definition := CollapseGaps(definition);
    definition := Strip(definition);
  }

  // ----- what the decoder promises ----------------------------------------

  /** A page without any table decodes to the empty definition. */
  lemma DecodeNoTable(body: string)
    requires forall e: Element :: !IsElement(body, TableOpen, TableClose, e)
    ensures Decode(body) == ""
  {
    assert FindElement(body, TableOpen, TableClose).None?;
  }

  /** Text appended after the first table is never looked at. */
  lemma GroupPrefix(s: string, r: string, open: string, close: string)
    requires Group(s, open, close).Some?
    ensures Group(s + r, open, close) == Group(s, open, close)
  {
    FindElementPrefix(s, r, open, close, 0);
    var e := FindElement(s, open, close).value;
    assert (s + r)[e.gt + 1..e.close] == s[e.gt + 1..e.close];
  }

  lemma DecodeIgnoresLaterTables(body: string, rest: string)
    requires Group(body, TableOpen, TableClose).Some?
    ensures Decode(body + rest) == Decode(body)
  {
    GroupPrefix(body, rest, TableOpen, TableClose);
  }

  /** When the first table has no cell, the definition is empty, whatever
      follows that table, later tables with cells included. */
  lemma DecodeFirstTableWithoutCell(body: string, rest: string)
    requires Group(body, TableOpen, TableClose).Some?
    requires forall e: Element :: !IsElement(Group(body, TableOpen, TableClose).value, CellOpen, CellClose, e)
    ensures Decode(body + rest) == ""
  {
    DecodeIgnoresLaterTables(body, rest);
    var table := Group(body, TableOpen, TableClose).value;
    assert FindElement(table, CellOpen, CellClose).None?;
  }

  /** The paragraph branch leaves no tab, no two spaces in a row and no
      two newlines with only whitespace between them. */
  lemma DecodeParagraphShape(cell: string)
    requires FindAll(cell, ParaOpen, ParaClose) != []
    ensures '\t' !in DecodeCell(cell)
    ensures NoDoubleSpace(DecodeCell(cell))
    ensures NoBlankGap(DecodeCell(cell))
  {
    NormaliseShape(JoinLines(CleanAll(FindAll(cell, ParaOpen, ParaClose))));
  }

  /** The branch without paragraphs collapses nothing: a trimmed cell
      without markup or entities is the definition as it stands, double
      spaces and blank lines included. */
  lemma DecodeFallbackKeeps(cell: string)
    requires '<' !in cell && '&' !in cell && Trimmed(cell)
    ensures DecodeCell(cell) == cell
  {
    NoTagAfter(cell, 0);
    assert cell[0..] == cell && cell + [] == cell;
    SkipPlain(cell, [], ParaOpen);
    assert FindAll(cell, ParaOpen, ParaClose) == [];
    StripTagsKeepsTagFree(cell);
    UnescapePlain(cell);
  }
}
