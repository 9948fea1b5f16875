/**
 * The import (`main`): each spreadsheet row is trimmed and escaped; a row
 * with an empty field or an unknown category is skipped without any call;
 * otherwise the category's parent page is looked up by title, and if it is
 * found the term's page is created under it, and only a creation answered
 * with 200 or 201 is followed by the call that labels the page.
 *
 * The calls the import makes are specified by a function of the store's
 * answers; the methods follow the loop of the script and are proved to make
 * exactly those calls.
 */
module Importer {
  import opened Text
  import opened Optional
  import opened Codec
  import opened Decoder
  import opened RoundTrip
  import opened Wiki
  import opened Glossary

  /** A spreadsheet row; a missing column reads as the empty text. */
  datatype CsvRow = CsvRow(term: string, definition: string, category: string)

  /** The fields of a row as the import prepares them before any check. */
  datatype Entry = Entry(term: string, definition: string, category: string)

  function Prepare(row: CsvRow): (e: Entry)
    ensures e.term == [] <==> Strip(row.term) == []
    ensures e.definition == [] <==> Strip(row.definition) == []
    ensures e.category == [] <==> Strip(row.category) == []
    ensures '\n' !in e.definition
  {
    Entry(Escape(Strip(row.term)), FormatMultiline(Strip(row.definition)), Escape(ToLower(Strip(row.category))))
  }

  function PrepareAll(rows: seq<CsvRow>): (r: seq<Entry>)
    ensures |r| == |rows|
    ensures forall k | 0 <= k < |rows| :: r[k] == Prepare(rows[k])
  {
    seq(|rows|, k requires 0 <= k < |rows| => Prepare(rows[k]))
  }

  /** A prepared row the import does not skip: no empty field, and a
      category that is one of the keys. */
  predicate Eligible(mapping: seq<(string, string)>, e: Entry)
  {
    e.term != [] && e.definition != [] && e.category != [] && Lookup(mapping, e.category).Some?
  }

  /** The calls the import makes for one prepared row, when `n` calls came
      before it. */
  function EntryExchanges(answer: (nat, Request) -> Response, mapping: seq<(string, string)>, n: nat, e: Entry): seq<Exchange>
  {
    if !Eligible(mapping, e) then []
    else
      var find := FindPage(Lookup(mapping, e.category).value, SpaceKey);
      var found := answer(n, find);
      var id := PageIdOf(found);
      if !Resolved(id) then [Exchange(find, found)]
      else
        var create := CreatePage(e.term, id.value, SpaceKey, StorageBody(e.definition));
        var created := answer(n + 1, create);
        if created.status == 200 || created.status == 201 then
          var tag := AddLabel(created.id, LabelPrefix, GlossaryLabel);
          [Exchange(find, found), Exchange(create, created), Exchange(tag, answer(n + 2, tag))]
        else
          [Exchange(find, found), Exchange(create, created)]
  }

  /** The calls the import makes for a list of prepared rows, one row after
      the other. */
  function ImportExchanges(answer: (nat, Request) -> Response, mapping: seq<(string, string)>, n: nat, entries: seq<Entry>): seq<Exchange>
  {
    Logs((m: nat, e: Entry) => EntryExchanges(answer, mapping, m, e), n, entries)
  }

  /** The body of the loop of `main`, once the row's fields are prepared. */
  method ImportEntry(store: Store, mapping: seq<(string, string)>, e: Entry)
    modifies store
    ensures store.exchanges == old(store.exchanges) + EntryExchanges(store.answer, mapping, |old(store.exchanges)|, e)
  {
    if e.term == [] || e.definition == [] || e.category == [] {
      return;
    }
    var parent := Lookup(mapping, e.category);
    if parent.None? {
      return;
    }
    var parentTitle := parent.value;
    var parentPageId := GetPageIdByTitle(store, parentTitle, SpaceKey);
    if !Resolved(parentPageId) {
      return;
    }
    var pagePropertiesBody := StorageBody(e.definition);
    var createResponse := store.Send(CreatePage(e.term, parentPageId.value, SpaceKey, pagePropertiesBody));
    if createResponse.status == 200 || createResponse.status == 201 {
      var pageId := createResponse.id;
      var labelResponse := store.Send(AddLabel(pageId, LabelPrefix, GlossaryLabel));
    }
  }

  /** `main`: every row in order, whatever the calls for earlier rows
      answered. */
  method ImportGlossary(store: Store, rows: seq<CsvRow>)
    modifies store
    ensures store.exchanges == old(store.exchanges) + ImportExchanges(store.answer, CategoryMapping, |old(store.exchanges)|, PrepareAll(rows))
  {
    ghost var entries := PrepareAll(rows);
    ghost var log := (m: nat, e: Entry) => EntryExchanges(store.answer, CategoryMapping, m, e);
    for i := 0 to |rows|
      invariant store.exchanges == old(store.exchanges) + Logs(log, |old(store.exchanges)|, entries[..i])
    {
      var e := Prepare(rows[i]);
      LogsStep(log, |old(store.exchanges)|, entries, i, old(store.exchanges), store.exchanges);
      ImportEntry(store, CategoryMapping, e);
    }
    assert entries[..|rows|] == entries;
  }

  // ----- what the import promises for one row --------------------------------

  /** A row is skipped without any call exactly when, once trimmed, one of
      its fields is empty or its lower-cased, escaped category is none of
      the keys. */
  lemma RowSkipped(answer: (nat, Request) -> Response, mapping: seq<(string, string)>, n: nat, row: CsvRow)
    ensures EntryExchanges(answer, mapping, n, Prepare(row)) == [] <==> !Eligible(mapping, Prepare(row))
    ensures !Eligible(mapping, Prepare(row)) <==>
      || Strip(row.term) == [] || Strip(row.definition) == [] || Strip(row.category) == []
      || forall k | 0 <= k < |mapping| :: mapping[k].0 != Escape(ToLower(Strip(row.category)))
  {
  }

  /** A row that is not skipped starts with the search for its category's
      parent page, and stops there exactly when no id comes back. */
  lemma EntryLooksUpParent(answer: (nat, Request) -> Response, mapping: seq<(string, string)>, n: nat, e: Entry)
    requires Eligible(mapping, e)
    ensures var xs := EntryExchanges(answer, mapping, n, e);
      && xs != []
      && xs[0].request == FindPage(Lookup(mapping, e.category).value, SpaceKey)
      && xs[0].response == answer(n, xs[0].request)
      && (|xs| == 1 <==> !Resolved(PageIdOf(xs[0].response)))
  {
  }

  /** The page is created under the parent that was found, with the
      escaped term as its title and the encoded definition in the
      template. */
  lemma EntryCreatesPage(answer: (nat, Request) -> Response, mapping: seq<(string, string)>, n: nat, e: Entry)
    requires |EntryExchanges(answer, mapping, n, e)| >= 2
    ensures var xs := EntryExchanges(answer, mapping, n, e);
      && Resolved(PageIdOf(xs[0].response))
      && xs[1].request == CreatePage(e.term, PageIdOf(xs[0].response).value, SpaceKey, StorageBody(e.definition))
      && xs[1].response == answer(n + 1, xs[1].request)
  {
  }

  /** The label call follows exactly the creations answered with 200 or
      201, and names the page the answer gives. */
  lemma EntryLabelsCreatedPage(answer: (nat, Request) -> Response, mapping: seq<(string, string)>, n: nat, e: Entry)
    requires |EntryExchanges(answer, mapping, n, e)| >= 2
    ensures var xs := EntryExchanges(answer, mapping, n, e);
      && |xs| <= 3
      && (|xs| == 3 <==> xs[1].response.status == 200 || xs[1].response.status == 201)
      && (|xs| == 3 ==> xs[2].request == AddLabel(xs[1].response.id, LabelPrefix, GlossaryLabel))
  {
  }

  /** What the export later reads back from a page the import created for
      a row: the trimmed definition with its line breaks deleted. */
  lemma CreatedPageReadsBack(answer: (nat, Request) -> Response, mapping: seq<(string, string)>, n: nat, row: CsvRow)
    requires |EntryExchanges(answer, mapping, n, Prepare(row))| >= 2
    ensures Decode(EntryExchanges(answer, mapping, n, Prepare(row))[1].request.body) == RemoveNewlines(Strip(row.definition))
  {
    EntryCreatesPage(answer, mapping, n, Prepare(row));
    RoundTrip.RoundTrip(row.definition);
  }

  // ----- what the import promises for all rows -------------------------------

  function CountEligible(mapping: seq<(string, string)>, entries: seq<Entry>): nat
    decreases |entries|
  {
    if entries == [] then 0
    else CountEligible(mapping, entries[..|entries| - 1]) + (if Eligible(mapping, entries[|entries| - 1]) then 1 else 0)
  }

  /** Number of title searches among some calls. */
  function CountLookups(xs: seq<Exchange>): nat
    decreases |xs|
  {
    if xs == [] then 0
    else CountLookups(xs[..|xs| - 1]) + (if xs[|xs| - 1].request.FindPage? then 1 else 0)
  }

  lemma {:induction false} CountLookupsAppend(xs: seq<Exchange>, ys: seq<Exchange>)
    ensures CountLookups(xs + ys) == CountLookups(xs) + CountLookups(ys)
    decreases |ys|
  {
    if ys == [] {
      assert xs + ys == xs;
    } else {
      assert (xs + ys)[..|xs + ys| - 1] == xs + ys[..|ys| - 1];
      CountLookupsAppend(xs, ys[..|ys| - 1]);
    }
  }

  lemma EntryLookups(answer: (nat, Request) -> Response, mapping: seq<(string, string)>, n: nat, e: Entry)
    ensures CountLookups(EntryExchanges(answer, mapping, n, e)) == if Eligible(mapping, e) then 1 else 0
  {
    var xs := EntryExchanges(answer, mapping, n, e);
    if |xs| >= 1 {
      assert CountLookups(xs[..1]) == 1;
    }
    if |xs| >= 2 {
      assert xs[..2][..1] == xs[..1];
      assert CountLookups(xs[..2]) == 1;
    }
    if |xs| == 3 {
      assert xs[..2] == xs[..|xs| - 1];
    } else if |xs| == 2 {
      assert xs[..1] == xs[..|xs| - 1];
    } else if |xs| == 1 {
      assert xs[..0] == xs[..|xs| - 1];
    }
  }

  /** The searches made for a list of rows: those for all but the last
      row, and one more when the last row is not skipped. */
  lemma ImportLookupsLast(answer: (nat, Request) -> Response, mapping: seq<(string, string)>, n: nat, entries: seq<Entry>)
    requires entries != []
    ensures CountLookups(ImportExchanges(answer, mapping, n, entries))
      == CountLookups(ImportExchanges(answer, mapping, n, entries[..|entries| - 1])) + if Eligible(mapping, entries[|entries| - 1]) then 1 else 0
  {
    var init, last := entries[..|entries| - 1], entries[|entries| - 1];
    var before := ImportExchanges(answer, mapping, n, init);
    var xs := EntryExchanges(answer, mapping, n + |before|, last);
    assert ImportExchanges(answer, mapping, n, entries) == before + xs;
    CountLookupsAppend(before, xs);
    EntryLookups(answer, mapping, n + |before|, last);
  }

  /** Every row that is not skipped gets its parent searched for, whatever
      the earlier rows' calls answered: a failed search, creation or
      labelling never stops the rows after it. */
  lemma {:induction false} ImportLooksUpEveryEligibleRow(answer: (nat, Request) -> Response, mapping: seq<(string, string)>, n: nat, entries: seq<Entry>)
    ensures CountLookups(ImportExchanges(answer, mapping, n, entries)) == CountEligible(mapping, entries)
    decreases |entries|
  {
    if entries != [] {
      ImportLookupsLast(answer, mapping, n, entries);
      ImportLooksUpEveryEligibleRow(answer, mapping, n, entries[..|entries| - 1]);
    }
  }
}
