/**
 * The export (`export_glossary_to_csv`): for each category, in the order of
 * the mapping, the parent page is searched for by title; a category whose
 * parent is not found is skipped; otherwise its child pages are listed and
 * each child's body is fetched and decoded into a row holding the page
 * title, the definition and the parent's title.
 *
 * The calls and the rows are specified by a function of the store's
 * answers; the methods follow the two nested loops of the script and are
 * proved to make exactly those calls and to collect exactly those rows.
 */
module Exporter {
  import opened Text
  import opened Optional
  import opened Codec
  import opened Scan
  import opened Decoder
  import opened RoundTrip
  import opened Wiki
  import opened Glossary

  /** One line of the exported spreadsheet. */
  datatype ExportRow = ExportRow(term: string, definition: string, category: string)

  /** The calls made and the rows collected. */
  datatype Outcome = Outcome(exchanges: seq<Exchange>, rows: seq<ExportRow>)

  /** The fetches of the child pages' bodies, one per page, after `n`
      earlier calls. */
  function ChildExchanges(answer: (nat, Request) -> Response, n: nat, pages: seq<Page>): (xs: seq<Exchange>)
    ensures |xs| == |pages|
    ensures forall k | 0 <= k < |pages| ::
      xs[k] == Exchange(GetContent(pages[k].id), answer(n + k, GetContent(pages[k].id)))
  {
    seq(|pages|, k requires 0 <= k < |pages| => Exchange(GetContent(pages[k].id), answer(n + k, GetContent(pages[k].id))))
  }

  /** The row of each child page: its title, the definition decoded from
      the body the fetch answered, and the parent's title. */
  function ChildRows(answer: (nat, Request) -> Response, n: nat, parentTitle: string, pages: seq<Page>): (rows: seq<ExportRow>)
    ensures |rows| == |pages|
    ensures forall k | 0 <= k < |pages| ::
      rows[k] == ExportRow(pages[k].title, Decode(ContentOf(answer(n + k, GetContent(pages[k].id)))), parentTitle)
  {
    seq(|pages|, k requires 0 <= k < |pages| =>
      ExportRow(pages[k].title, Decode(ContentOf(answer(n + k, GetContent(pages[k].id)))), parentTitle))
  }

  /** What the export does for one category, after `n` earlier calls. */
  function CategoryOutcome(answer: (nat, Request) -> Response, n: nat, parentTitle: string): Outcome
  {
    var find := FindPage(parentTitle, SpaceKey);
    var found := answer(n, find);
    var id := PageIdOf(found);
    if !Resolved(id) then Outcome([Exchange(find, found)], [])
    else
      var list := ListChildren(id.value);
      var listed := answer(n + 1, list);
      var pages := ChildrenOf(listed);
      Outcome([Exchange(find, found), Exchange(list, listed)] + ChildExchanges(answer, n + 2, pages),
               ChildRows(answer, n + 2, parentTitle, pages))
  }

  /** What the export does for the categories of `mapping`, in order. */
  function ExportOutcome(answer: (nat, Request) -> Response, mapping: seq<(string, string)>, n: nat): Outcome
    decreases |mapping|
  {
    if mapping == [] then Outcome([], [])
    else
      var before := ExportOutcome(answer, mapping[..|mapping| - 1], n);
      var last := CategoryOutcome(answer, n + |before.exchanges|, mapping[|mapping| - 1].1);
      Outcome(before.exchanges + last.exchanges, before.rows + last.rows)
  }

  /** One more iteration of the inner loop, after `base` and the calls and
      rows of the first `j` children. */
  lemma ChildStep(answer: (nat, Request) -> Response, n: nat, parentTitle: string, pages: seq<Page>, j: nat,
                  base: seq<Exchange>, prev: seq<Exchange>, rows: seq<ExportRow>)
    requires j < |pages| && |base| == n
    requires prev == base + ChildExchanges(answer, n, pages[..j])
    requires rows == ChildRows(answer, n, parentTitle, pages[..j])
    ensures prev + [Exchange(GetContent(pages[j].id), answer(|prev|, GetContent(pages[j].id)))]
      == base + ChildExchanges(answer, n, pages[..j + 1])
    ensures rows + [ExportRow(pages[j].title, Decode(ContentOf(answer(|prev|, GetContent(pages[j].id)))), parentTitle)]
      == ChildRows(answer, n, parentTitle, pages[..j + 1])
  {
    assert |prev| == n + j;
    ChildNext(answer, n, parentTitle, pages, j);
    var fetch := Exchange(GetContent(pages[j].id), answer(n + j, GetContent(pages[j].id)));
    AppendAssoc(base, ChildExchanges(answer, n, pages[..j]), [fetch]);
  }

  lemma ChildNext(answer: (nat, Request) -> Response, n: nat, parentTitle: string, pages: seq<Page>, j: nat)
    requires j < |pages|
    ensures ChildExchanges(answer, n, pages[..j + 1])
      == ChildExchanges(answer, n, pages[..j]) + [Exchange(GetContent(pages[j].id), answer(n + j, GetContent(pages[j].id)))]
    ensures ChildRows(answer, n, parentTitle, pages[..j + 1])
      == ChildRows(answer, n, parentTitle, pages[..j])
         + [ExportRow(pages[j].title, Decode(ContentOf(answer(n + j, GetContent(pages[j].id)))), parentTitle)]
  {
  }

  lemma HeadThenChildren(xs: seq<Exchange>, find: Exchange, list: Exchange, children: seq<Exchange>)
    ensures xs + [find] + [list] + children == xs + ([find, list] + children)
  {
  }

  /** The inner loop of the export: one fetch and one row per child page. */
  method ExportChildren(store: Store, parentTitle: string, childPages: seq<Page>) returns (rows: seq<ExportRow>)
    modifies store
    ensures store.exchanges == old(store.exchanges) + ChildExchanges(store.answer, |old(store.exchanges)|, childPages)
    ensures rows == ChildRows(store.answer, |old(store.exchanges)|, parentTitle, childPages)
  {
    rows := [];
    for j := 0 to |childPages|
      invariant store.exchanges == old(store.exchanges) + ChildExchanges(store.answer, |old(store.exchanges)|, childPages[..j])
      invariant rows == ChildRows(store.answer, |old(store.exchanges)|, parentTitle, childPages[..j])
    {
      ChildStep(store.answer, |old(store.exchanges)|, parentTitle, childPages, j, old(store.exchanges), store.exchanges, rows);
      var page := childPages[j];
      var term := page.title;
      var pageId := page.id;
      var contentHtml := GetPageContent(store, pageId);
      var definition := ExtractDefinition(contentHtml);
      rows := rows + [ExportRow(term, definition, parentTitle)];
    }
    assert childPages[..|childPages|] == childPages;
  }

  /** The body of the outer loop of the export, for one category. */
  method ExportCategory(store: Store, parentTitle: string) returns (rows: seq<ExportRow>)
    modifies store
    ensures store.exchanges == old(store.exchanges) + CategoryOutcome(store.answer, |old(store.exchanges)|, parentTitle).exchanges
    ensures rows == CategoryOutcome(store.answer, |old(store.exchanges)|, parentTitle).rows
  {
    rows := [];
    var parentPageId := GetPageIdByTitle(store, parentTitle, SpaceKey);
    if !Resolved(parentPageId) {
      return;
    }
    ghost var find := Exchange(FindPage(parentTitle, SpaceKey), store.answer(|old(store.exchanges)|, FindPage(parentTitle, SpaceKey)));
    var childPages := GetChildPages(store, parentPageId.value);
    ghost var list := Exchange(ListChildren(parentPageId.value), store.answer(|old(store.exchanges)| + 1, ListChildren(parentPageId.value)));
    rows := ExportChildren(store, parentTitle, childPages);
    HeadThenChildren(old(store.exchanges), find, list, ChildExchanges(store.answer, |old(store.exchanges)| + 2, childPages));
  }

  /** `export_glossary_to_csv` up to the writing of the file: the rows it
      writes. */
  method ExportGlossary(store: Store) returns (rows: seq<ExportRow>)
    modifies store
    ensures store.exchanges == old(store.exchanges) + ExportOutcome(store.answer, CategoryMapping, |old(store.exchanges)|).exchanges
    ensures rows == ExportOutcome(store.answer, CategoryMapping, |old(store.exchanges)|).rows
  {
    rows := [];
    for i := 0 to |CategoryMapping|
      invariant store.exchanges == old(store.exchanges) + ExportOutcome(store.answer, CategoryMapping[..i], |old(store.exchanges)|).exchanges
      invariant rows == ExportOutcome(store.answer, CategoryMapping[..i], |old(store.exchanges)|).rows
    {
      ExportStep(store.answer, CategoryMapping, |old(store.exchanges)|, i, old(store.exchanges), store.exchanges);
      var parentTitle := CategoryMapping[i].1;
      var categoryRows := ExportCategory(store, parentTitle);
      rows := rows + categoryRows;
    }
    assert CategoryMapping[..|CategoryMapping|] == CategoryMapping;
  }

  lemma ExportStep(answer: (nat, Request) -> Response, mapping: seq<(string, string)>, n: nat, i: nat, base: seq<Exchange>, prev: seq<Exchange>)
    requires i < |mapping| && |base| == n
    requires prev == base + ExportOutcome(answer, mapping[..i], n).exchanges
    ensures prev + CategoryOutcome(answer, |prev|, mapping[i].1).exchanges == base + ExportOutcome(answer, mapping[..i + 1], n).exchanges
    ensures ExportOutcome(answer, mapping[..i], n).rows + CategoryOutcome(answer, |prev|, mapping[i].1).rows
      == ExportOutcome(answer, mapping[..i + 1], n).rows
  {
    assert mapping[..i + 1][..i] == mapping[..i];
    AppendAssoc(base, ExportOutcome(answer, mapping[..i], n).exchanges, CategoryOutcome(answer, |prev|, mapping[i].1).exchanges);
  }

  // ----- what the export promises for one category ---------------------------

  /** A category starts with the search for its parent page, and makes no
      other call and gives no row exactly when no id comes back. */
  lemma CategorySkipped(answer: (nat, Request) -> Response, n: nat, parentTitle: string)
    ensures var o := CategoryOutcome(answer, n, parentTitle);
      && |o.exchanges| >= 1
      && o.exchanges[0] == Exchange(FindPage(parentTitle, SpaceKey), answer(n, FindPage(parentTitle, SpaceKey)))
      && (!Resolved(PageIdOf(o.exchanges[0].response)) <==> |o.exchanges| == 1)
      && (|o.exchanges| == 1 ==> o.rows == [])
  {
  }

  /** Otherwise it lists the parent's children and gives one row per child,
      in the listed order, whose definition is decoded from the answer to
      that child's fetch. */
  lemma CategoryChildren(answer: (nat, Request) -> Response, n: nat, parentTitle: string)
    requires Resolved(PageIdOf(answer(n, FindPage(parentTitle, SpaceKey))))
    ensures var o := CategoryOutcome(answer, n, parentTitle);
      var list := ListChildren(PageIdOf(answer(n, FindPage(parentTitle, SpaceKey))).value);
      var pages := ChildrenOf(answer(n + 1, list));
      && |o.exchanges| == 2 + |pages|
      && o.exchanges[1] == Exchange(list, answer(n + 1, list))
      && |o.rows| == |pages|
      && forall k | 0 <= k < |pages| ::
           && o.exchanges[2 + k] == Exchange(GetContent(pages[k].id), answer(n + 2 + k, GetContent(pages[k].id)))
           && o.rows[k] == ExportRow(pages[k].title, Decode(ContentOf(o.exchanges[2 + k].response)), parentTitle)
  {
    var o := CategoryOutcome(answer, n, parentTitle);
    var list := ListChildren(PageIdOf(answer(n, FindPage(parentTitle, SpaceKey))).value);
    var pages := ChildrenOf(answer(n + 1, list));
    var head := [Exchange(FindPage(parentTitle, SpaceKey), answer(n, FindPage(parentTitle, SpaceKey))), Exchange(list, answer(n + 1, list))];
    var children := ChildExchanges(answer, n + 2, pages);
    assert o.exchanges == head + children;
    forall k | 0 <= k < |pages|
      ensures o.exchanges[2 + k] == children[k]
    {
    }
  }

  /** A child page whose fetch fails is exported with an empty
      definition. */
  lemma FailedFetchEmptyDefinition(answer: (nat, Request) -> Response, n: nat, parentTitle: string, pages: seq<Page>, k: nat)
    requires k < |pages|
    requires answer(n + k, GetContent(pages[k].id)).status != 200
    ensures ChildRows(answer, n, parentTitle, pages)[k].definition == ""
  {
    DecodeNoTable("");
  }

  /** A child page whose body is the one the import writes for a
      definition `d` is exported with `d` trimmed and its line breaks
      deleted. */
  lemma ExportReadsBackImport(answer: (nat, Request) -> Response, n: nat, parentTitle: string, pages: seq<Page>, k: nat, d: string)
    requires k < |pages|
    requires answer(n + k, GetContent(pages[k].id)).status == 200
    requires answer(n + k, GetContent(pages[k].id)).body == StorageBody(FormatMultiline(Strip(d)))
    ensures ChildRows(answer, n, parentTitle, pages)[k] == ExportRow(pages[k].title, RemoveNewlines(Strip(d)), parentTitle)
  {
    RoundTrip.RoundTrip(d);
  }

  // ----- what the export promises for all categories -------------------------

  /** The position of the first category whose parent title is `t`;
      `|mapping|` when there is none. */
  function TitleIndex(mapping: seq<(string, string)>, t: string): (k: nat)
    ensures k <= |mapping|
    ensures k < |mapping| ==> mapping[k].1 == t
    ensures forall j | 0 <= j < k :: mapping[j].1 != t
    decreases |mapping|
  {
    if mapping == [] then 0
    else if mapping[0].1 == t then 0
    else
      var k := 1 + TitleIndex(mapping[1..], t);
      assert forall j | 1 <= j < |mapping| :: mapping[j] == mapping[1..][j - 1];
      k
  }

  lemma TitleIndexPrefix(mapping: seq<(string, string)>, m: nat, t: string)
    requires m <= |mapping|
    requires TitleIndex(mapping[..m], t) < m
    ensures TitleIndex(mapping, t) == TitleIndex(mapping[..m], t)
  {
    var a := TitleIndex(mapping[..m], t);
    assert mapping[a].1 == t;
  }

  predicate DistinctTitles(mapping: seq<(string, string)>)
  {
    forall i, j | 0 <= i < j < |mapping| :: mapping[i].1 != mapping[j].1
  }

  /** The rows, category by category, in the order of the mapping. */
  predicate InMappingOrder(mapping: seq<(string, string)>, rows: seq<ExportRow>)
  {
    forall i, j | 0 <= i < j < |rows| :: TitleIndex(mapping, rows[i].category) <= TitleIndex(mapping, rows[j].category)
  }

  /** The rows one category gives all name its parent title and hold
      trimmed definitions. */
  lemma CategoryRows(answer: (nat, Request) -> Response, n: nat, parentTitle: string)
    ensures var rows := CategoryOutcome(answer, n, parentTitle).rows;
      forall i | 0 <= i < |rows| :: rows[i].category == parentTitle && Trimmed(rows[i].definition)
  {
  }

  /** Every row names one of the parent titles as its category and holds
      a trimmed definition. */
  predicate RowsNamed(mapping: seq<(string, string)>, rows: seq<ExportRow>)
  {
    forall i | 0 <= i < |rows| :: TitleIndex(mapping, rows[i].category) < |mapping| && Trimmed(rows[i].definition)
  }

  /** The rows of the categories before the last, then those of the last. */
  lemma AppendCategory(mapping: seq<(string, string)>, before: seq<ExportRow>, last: seq<ExportRow>)
    requires mapping != []
    requires RowsNamed(mapping[..|mapping| - 1], before)
    requires forall i | 0 <= i < |last| :: last[i].category == mapping[|mapping| - 1].1 && Trimmed(last[i].definition)
    ensures RowsNamed(mapping, before + last)
    ensures DistinctTitles(mapping) && InMappingOrder(mapping[..|mapping| - 1], before) ==> InMappingOrder(mapping, before + last)
  {
    var m := |mapping| - 1;
    var rows := before + last;
    forall i | 0 <= i < |before|
      ensures TitleIndex(mapping, rows[i].category) == TitleIndex(mapping[..m], before[i].category) < m
    {
      assert rows[i] == before[i];
      TitleIndexPrefix(mapping, m, rows[i].category);
    }
    forall i | |before| <= i < |rows|
      ensures rows[i] == last[i - |before|]
    {
    }
    if DistinctTitles(mapping) {
      assert TitleIndex(mapping, mapping[m].1) == m;
    }
  }

  /** Every exported row names one of the parent titles as its category and
      holds a trimmed definition; with distinct parent titles, the rows come
      category by category, in the order of the mapping. */
  lemma {:induction false} ExportRows(answer: (nat, Request) -> Response, mapping: seq<(string, string)>, n: nat)
    ensures RowsNamed(mapping, ExportOutcome(answer, mapping, n).rows)
    ensures DistinctTitles(mapping) ==> InMappingOrder(mapping, ExportOutcome(answer, mapping, n).rows)
    decreases |mapping|
  {
    if mapping != [] {
      var m := |mapping| - 1;
      var init := mapping[..m];
      var before := ExportOutcome(answer, init, n);
      var last := CategoryOutcome(answer, n + |before.exchanges|, mapping[m].1);
      assert ExportOutcome(answer, mapping, n).rows == before.rows + last.rows;
      ExportRows(answer, init, n);
      CategoryRows(answer, n + |before.exchanges|, mapping[m].1);
      if DistinctTitles(mapping) {
        assert DistinctTitles(init);
      }
      AppendCategory(mapping, before.rows, last.rows);
    }
  }

  /** The five parent titles are distinct. */
  lemma CategoryTitlesDistinct()
    ensures DistinctTitles(CategoryMapping)
  {
  }
}
