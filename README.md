# Glossary sync for a Confluence space: a Dafny model

The repository keeps a glossary in a Confluence space. There is one page
per term, and each term page sits under the parent page of its category.
Two pipelines move terms between a spreadsheet and the wiki:

- **Import** (`main` in `bulkTerms_Confluence.py`). For each spreadsheet
  row, in order:
  - trim the term, the definition and the category, and lower-case the
    category;
  - HTML-escape all three, and turn every newline of the definition into a
    `<br />` marker;
  - skip the row if a field is empty or the category is not one of the five
    keys of the category mapping;
  - look the category's parent page up by title, and skip the row if no id
    comes back;
  - otherwise create the term's page under the parent. Its body is a
    storage-format "details" macro around a one-cell table that holds the
    encoded definition;
  - only when the creation is answered with 200 or 201, put the
    `global:glossary-terms` label on the new page.
- **Export** (`export_glossary_to_csv`, in the same file and again in
  `getAllTerms_Confluence.py`). For each category, in mapping order:
  - look up the parent page; skip the category when it cannot be found;
  - list the parent's children;
  - fetch each child's body and decode its definition: the first cell of
    the first table, with paragraph handling, tag stripping, unescaping and
    whitespace normalisation;
  - collect one row per child: its title, the decoded definition and the
    parent title.

`pythonConfluence/bulkTerms_Confluence.py` is a line-for-line copy of
`bulkTerms_Confluence.py`. `getAllTerms_Confluence.py` repeats the page-id
lookup and the two fetch helpers (lines 29-60), the decoder (lines 63-101)
and the export (lines 103-148). Its mapping (lines 119-125) has the same
keys and parent titles. The same members model all three files.

The modules follow the program's structure:

- `Text`: Python's `strip` with the exact `isspace` character set, and
  ASCII lower-casing.
- `Codec`: `html.escape`, the newline rewrite, the page template, and the
  unescaping of the five references that escaping produces.
- `Scan`: the regular expressions the decoder uses. These are the lazy
  element pattern `<tag.*?>(.*?)</tag>` under `re.search` and `re.findall`
  (DOTALL, IGNORECASE), and the tag stripper `<.*?>`, which has no DOTALL.
- `Whitespace`: the two normalising substitutions.
- `Decoder`: `extract_definition_from_html`, as a function and as the
  method that follows its loop.
- `RoundTrip`: what the decoder reads back from a page body the import
  writes.
- `Wiki`: the content store.
  - A `Store` class holds an answer oracle and a log of every call with its
    answer.
  - It offers the three helpers (`get_pageid_by_title`, `get_child_pages`,
    `get_page_content`) with their fallbacks.
  - The store's answer to a call is a parameter of the model: a function of
    the call and of how many calls came before it.
- `Glossary`: the space key, the category mapping and the label.
- `Importer` and `Exporter`: the two pipelines.
  - Each is a specification function that gives the exact sequence of calls
    it makes, and for the export also the rows.
  - Each also has a method that follows the script's loops and is proved to
    make exactly those calls.
  - Lemmas state what the scripts promise about skipping, ordering and
    reading back.

Decoding an encoded definition does not give back its line breaks. The
tag stripper removes every `<br />` marker that the encoder wrote in place
of a newline, so the definition comes back trimmed and with all newlines
deleted (`RoundTrip.RoundTrip`, `RoundTrip.RoundTripJoinsLines`).

## Model

| member | source | states |
|---|---|---|
| Text.StripIsSlice | bulkTerms_Confluence.py:77-79 | `strip()`: the result is a slice of the input with only `isspace` characters cut from before and after it, and it has none at either end |
| Text.ToLower | bulkTerms_Confluence.py:79 | `lower()` on ASCII: same length; every capital letter becomes its lower-case letter, every other character is kept |
| Codec.Escape | bulkTerms_Confluence.py:39 | `html.escape`: no `<`, `>`, `"` or `'` is left; the result is empty exactly when the input is, is at least as long, and holds a newline exactly when the input does |
| Codec.FormatMultiline | bulkTerms_Confluence.py:38-40 | `html_format_multiline`: no raw newline is left, and the result is empty exactly when the text is (so the import's emptiness test on it is a test on the trimmed text) |
| Codec.FormatMultilineShape | bulkTerms_Confluence.py:38-40 | every `<` and `>` of the encoded text belongs to a whole `<br />` marker, and there is one marker per newline of the text |
| Codec.EscapeKeepsNewlineCount | bulkTerms_Confluence.py:39 | escaping keeps the number of newlines |
| Codec.UnescapeEscape | bulkTerms_Confluence.py:239 | `html.unescape` undoes `html.escape` for every text |
| Codec.StorageBody | bulkTerms_Confluence.py:99-108 | the page body is strictly longer than the definition it wraps |
| Scan.FindFrom | bulkTerms_Confluence.py:220 | a found occurrence starts at or after the search start, fits in the text, and matches the pattern ignoring case |
| Scan.FindLeast | bulkTerms_Confluence.py:220 | the occurrence found is the leftmost one: every match from the start on is found, at the same index or before it |
| Scan.FindElement | bulkTerms_Confluence.py:220 | a found element is a match of `open.*?>(.*?)close` that fits in the text |
| Scan.FindElementFirst | bulkTerms_Confluence.py:220 | every match of the element pattern is tried no earlier than the one `re.search` returns (leftmost start, then shortest `.*?` parts) |
| Scan.FindElementPrefix | bulkTerms_Confluence.py:220 | text appended after a found element does not change which element is found |
| Scan.FindAllFromNone | bulkTerms_Confluence.py:233 | `re.findall` of the element pattern returns nothing exactly when no match of `<tag.*?>(.*?)</tag>` starts in the searched part of the text |
| Scan.FindAllFromFirst | bulkTerms_Confluence.py:233 | otherwise its first item is the group of the match a backtracking matcher tries first (leftmost opening, first `>`, first closing tag), and the other items are the matches found from the end of that match on |
| Scan.StripTagsPlain | bulkTerms_Confluence.py:238 | `re.sub(r"<.*?>", "", s)` keeps text that holds no `<` as it is |
| Scan.StripTagsTag | bulkTerms_Confluence.py:238 | a `<` followed on its line by a `>` is deleted with everything up to the first such `>` |
| Scan.StripTagsUnclosed | bulkTerms_Confluence.py:238 | the rest of a line that holds no `>` is kept, every `<` on it included |
| Scan.StripTagsTagFree | bulkTerms_Confluence.py:238 | after stripping, no `<` has a `>` after it on its line |
| Scan.StripTagsIdempotent | bulkTerms_Confluence.py:245 | stripping tags twice is stripping them once |
| Whitespace.CollapseBlanks | bulkTerms_Confluence.py:253 | `re.sub(r"[ \t]+", " ", s)`: no tab and no two spaces in a row remain; the first character is a space exactly when the text began with a space or tab; empty only for the empty text |
| Whitespace.CollapseBlanksWord | bulkTerms_Confluence.py:253 | text without spaces or tabs is kept as it is |
| Whitespace.CollapseBlanksRun | bulkTerms_Confluence.py:253 | a whole run of spaces and tabs becomes one space |
| Whitespace.CollapseBlanksKeepsWords | bulkTerms_Confluence.py:253 | with spaces and tabs deleted, the result equals the input |
| Whitespace.CollapseBlanksIdentity | bulkTerms_Confluence.py:253 | text with no tab and no two spaces in a row is left unchanged |
| Whitespace.CollapseGapsLine | bulkTerms_Confluence.py:254 | `re.sub(r"\n\s*\n", "\n", s)` keeps text without a newline as it is |
| Whitespace.CollapseGapsNewline | bulkTerms_Confluence.py:254 | a newline not followed by whitespace holding another newline is kept |
| Whitespace.CollapseGapsGap | bulkTerms_Confluence.py:254 | a newline, whitespace, and the last newline of that whitespace become one newline |
| Whitespace.CollapseGapsKeepsText | bulkTerms_Confluence.py:254 | with all whitespace deleted, the result equals the input |
| Whitespace.CollapseGapsIdentity | bulkTerms_Confluence.py:254 | text in which no two newlines are separated by whitespace only is left unchanged |
| Whitespace.CollapseGapsKeeps | bulkTerms_Confluence.py:254 | collapsing gaps brings in no tab and no double space |
| Whitespace.CollapseGapsNoBlankGap | bulkTerms_Confluence.py:254 | after collapsing, no two newlines are separated by whitespace only |
| Whitespace.StripKeeps | bulkTerms_Confluence.py:256 | trimming keeps all three properties |
| Whitespace.NormaliseShape | bulkTerms_Confluence.py:252-256 | the normalised definition has no tab, no two spaces in a row, no blank gap between lines, and no whitespace at either end |
| Decoder.Group | bulkTerms_Confluence.py:220-223 | `match.group(1)` is missing exactly when `re.search` finds nothing |
| Decoder.CleanAll | bulkTerms_Confluence.py:242-247 | one cleaned paragraph per paragraph, in order |
| Decoder.CleanParagraphs | bulkTerms_Confluence.py:242-247 | the loop collects, for each paragraph in order, its tag-stripped, unescaped, trimmed text |
| Decoder.Decode | bulkTerms_Confluence.py:218-256 | every definition the decoder returns is trimmed, on every branch |
| Decoder.ExtractDefinition | bulkTerms_Confluence.py:218-256 | the step-by-step procedure returns exactly the decoder function's result |
| Decoder.DecodeNoTable | bulkTerms_Confluence.py:220-222 | a body without any table decodes to the empty definition |
| Decoder.DecodeFirstTableWithoutCell | bulkTerms_Confluence.py:223-228 | when the first table has no cell, the definition is empty whatever follows that table |
| Decoder.DecodeIgnoresLaterTables | bulkTerms_Confluence.py:220-223 | text after the first table never changes the definition |
| Decoder.DecodeParagraphShape | bulkTerms_Confluence.py:249-256 | the paragraph branch leaves no tab, no double space and no blank gap |
| Decoder.DecodeFallbackKeeps | bulkTerms_Confluence.py:236-239 | without paragraphs, a trimmed cell with no tag and no `&` comes back unchanged |
| RoundTrip.RemoveNewlines | bulkTerms_Confluence.py:238 | deleting newlines leaves none and never lengthens the text |
| RoundTrip.RemoveNewlinesEscape | bulkTerms_Confluence.py:39 | deleting newlines commutes with `html.escape` |
| RoundTrip.StripTagsMarkers | bulkTerms_Confluence.py:238 | on escaped text, the tag stripper removes exactly the `<br />` markers, which deletes the original newlines |
| RoundTrip.TableFound | bulkTerms_Confluence.py:99-108 | in a page body the import writes, the first table the decoder finds holds exactly the template's table content |
| RoundTrip.CellFound | bulkTerms_Confluence.py:103-104 | in that table, the first cell the decoder finds holds exactly the encoded definition |
| RoundTrip.NoParagraphs | bulkTerms_Confluence.py:233-236 | encoded text holds no paragraph element, so the decoder takes its fallback branch |
| RoundTrip.RoundTrip | bulkTerms_Confluence.py:218-256 | decoding the body written for a definition gives the trimmed definition with every newline deleted |
| RoundTrip.RoundTripJoinsLines | bulkTerms_Confluence.py:38-40 | a two-line definition comes back as its two lines joined with nothing between them |
| Wiki.Store.Send | bulkTerms_Confluence.py:125-130 | one call: it is answered by the store's answer to that call at its position, and appended to the log |
| Wiki.PageIdOf | bulkTerms_Confluence.py:51-56 | an id comes back exactly on status 200 with at least one result, and it is the first result's id |
| Wiki.ChildrenOf | bulkTerms_Confluence.py:202-206 | the listed pages on status 200, no page on any other status |
| Wiki.ContentOf | bulkTerms_Confluence.py:211-215 | the storage body on status 200, the empty text on any other status |
| Wiki.GetPageIdByTitle | bulkTerms_Confluence.py:43-56 | exactly one title search in the space is made, and the id is the one `PageIdOf` picks from its answer |
| Wiki.GetChildPages | bulkTerms_Confluence.py:199-206 | exactly one child listing is made, and the pages are `ChildrenOf` its answer |
| Wiki.GetPageContent | bulkTerms_Confluence.py:208-215 | exactly one body fetch is made, and the content is `ContentOf` its answer |
| Glossary.Lookup | bulkTerms_Confluence.py:86-89 | `dict.get`: no value exactly when no key matches; otherwise the value paired with the first matching key |
| Importer.Prepare | bulkTerms_Confluence.py:77-81 | each prepared field is empty exactly when the trimmed field is, so the skip test sees the trimmed row; the definition holds no raw newline |
| Importer.PrepareAll | bulkTerms_Confluence.py:76-79 | every row is prepared, in order |
| Importer.ImportEntry | bulkTerms_Confluence.py:81-157 | the calls made for one prepared row are exactly those the import specification gives for it |
| Importer.ImportGlossary | bulkTerms_Confluence.py:76-157 | the calls made for all rows are exactly the specification's, row after row, whatever earlier calls answered |
| Importer.RowSkipped | bulkTerms_Confluence.py:81-89 | a row makes no call exactly when, after trimming, a field is empty or its lower-cased, escaped category is none of the keys |
| Importer.EntryLooksUpParent | bulkTerms_Confluence.py:91-96 | a row that is not skipped starts with the title search for its category's parent, and stops there exactly when no id comes back |
| Importer.EntryCreatesPage | bulkTerms_Confluence.py:99-130 | the page is created with the escaped term as title, the found parent as ancestor, the space key, and the template around the encoded definition |
| Importer.EntryLabelsCreatedPage | bulkTerms_Confluence.py:132-146 | the label call follows exactly the creations answered with 200 or 201, puts `global:glossary-terms` on the id that answer gives, and is the last call for the row |
| Importer.CreatedPageReadsBack | bulkTerms_Confluence.py:99-108 | the export later decodes the created page's body to the row's trimmed definition with its newlines deleted |
| Importer.ImportLooksUpEveryEligibleRow | bulkTerms_Confluence.py:76-96 | the import makes exactly one parent search per row that is not skipped: a failed search, creation or label never stops the later rows |
| Exporter.ChildExchanges | bulkTerms_Confluence.py:284-287 | one body fetch per child page, in the listed order, each at its position in the call sequence |
| Exporter.ChildRows | bulkTerms_Confluence.py:284-294 | one row per child: its title, the definition decoded from its fetched body, and the parent title |
| Exporter.ExportChildren | bulkTerms_Confluence.py:284-294 | the inner loop makes exactly those fetches and collects exactly those rows |
| Exporter.ExportCategory | bulkTerms_Confluence.py:275-294 | for one category, the calls and rows are exactly the specification's |
| Exporter.ExportGlossary | bulkTerms_Confluence.py:272-294 | the calls and rows over all five categories are exactly the specification's, category after category |
| Exporter.CategorySkipped | bulkTerms_Confluence.py:275-279 | a category starts with the search for its parent page; it makes no other call and gives no row exactly when no id comes back |
| Exporter.CategoryChildren | bulkTerms_Confluence.py:281-294 | otherwise it lists the parent's children once, then fetches each child in order and gives one row per child |
| Exporter.FailedFetchEmptyDefinition | bulkTerms_Confluence.py:213-215 | a child whose fetch does not answer 200 is exported with an empty definition |
| Exporter.ExportReadsBackImport | bulkTerms_Confluence.py:287-293 | a child whose body is the one the import writes for a definition is exported with that definition, trimmed and without newlines |
| Exporter.CategoryRows | bulkTerms_Confluence.py:290-294 | every row a category gives names its parent title and holds a trimmed definition |
| Exporter.ExportRows | bulkTerms_Confluence.py:274-294 | every exported row names one of the parent titles and holds a trimmed definition; with distinct titles the rows come category by category, in mapping order |
| Exporter.CategoryTitlesDistinct | bulkTerms_Confluence.py:29-35 | the five parent titles are distinct, so the export's rows follow the mapping's order |

## Left out

- HTTP, JSON and authentication are left out: the base URLs, headers, credentials and `cloud` switch (bulkTerms_Confluence.py:59-69, 260-270). The store is an oracle that answers with a status and the fields the scripts read. A missing JSON key, a non-JSON answer and a network failure raise in the scripts. Nothing catches them, so the run ends and the rows after it get no call. These exceptions are not modelled.
- Reading and writing the spreadsheet (`csv.DictReader`, `csv.DictWriter`) is left out. A row is three strings. A column missing from the header reads as the empty text, as `row.get(..., "")` gives. A row shorter than the header makes `csv.DictReader` give `None` for its last fields, so `.strip()` raises an `AttributeError` and the import stops there; that case is not modelled. The export's result is its list of rows.
- All `print` output is left out. This includes the label call's success or failure branch (bulkTerms_Confluence.py:148-152), which only prints: its answer is logged but changes nothing.
- `verify_rest_connection`, `ui.py` and the module-level call at the end of getAllTerms_Confluence.py are not part of this model.
- Codec.Unescape: decodes only the five references `html.escape` produces (`&amp;`, `&lt;`, `&gt;`, `&quot;`, `&#x27;`). It does not decode the full HTML5 entity table or numeric references in general. The round-trip results depend only on these five.
- Text.ToLower: lowers ASCII letters only. Python's `lower()` also maps non-ASCII capitals, and that is not modelled.
- Page ids are strings. "No id" is `None` or the empty string, as `if not parent_page_id` treats them.
- The category mapping is a list of (key, parent title) pairs in the dictionary's insertion order. The pipelines iterate and look up in that order.
- Codec.StorageBody: its contract states only the length. What the decoder reads back from the body is stated by RoundTrip.TableFound, RoundTrip.CellFound and RoundTrip.RoundTrip.
- Importer.ImportEntry: takes the category mapping as a parameter. The import passes the module-level mapping.
- Importer.ImportLooksUpEveryEligibleRow: holds only for runs in which nothing raises. A short spreadsheet row, a non-JSON answer or a network failure ends the import, and no later row is searched for.
- Whitespace.CollapseBlanks: its own contract gives only the shape of the result: no tab, no double space, and the first character. The exact rewriting is stated by Whitespace.CollapseBlanksWord and Whitespace.CollapseBlanksRun.
