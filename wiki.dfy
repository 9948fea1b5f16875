/**
 * The content store the glossary tools talk to, reduced to the five calls
 * they make and to the parts of each answer they read: a status code, a
 * list of pages (id and title), the id of a created page and a page body.
 * What the server answers is a parameter of the model: the store's answer
 * to a request depends only on the request and on how many calls came
 * before it. Every call is logged, so that what the pipelines send, and in
 * what order, can be stated.
 */
module Wiki {
  import opened Optional

  datatype Page = Page(id: string, title: string)

  datatype Request =
    | FindPage(title: string, spaceKey: string)
    | CreatePage(title: string, ancestor: string, spaceKey: string, body: string)
    | AddLabel(pageId: string, prefix: string, name: string)
    | ListChildren(pageId: string)
    | GetContent(pageId: string)

  /** The fields of an answer that the tools read: `results`, `id`, and
      `body.storage.value`. */
  datatype Response = Response(status: int, results: seq<Page>, id: string, body: string)

  datatype Exchange = Exchange(request: Request, response: Response)

  class Store {
    /** The server's answer to the n-th call, when that call is `req`. */
    const answer: (nat, Request) -> Response
    /** Every call made so far, with its answer, oldest first. */
    var exchanges: seq<Exchange>

    constructor(answer: (nat, Request) -> Response)
      ensures this.answer == answer
      ensures exchanges == []
    {
      this.answer := answer;
      exchanges := [];
    }

    /** One call to the store. */
    method Send(req: Request) returns (resp: Response)
      modifies this
      ensures resp == answer(|old(exchanges)|, req)
      ensures exchanges == old(exchanges) + [Exchange(req, resp)]
    {
      resp := answer(|exchanges|, req);
      exchanges := exchanges + [Exchange(req, resp)];
    }
  }

  /** `get_pageid_by_title`'s choice: the first result's id, and only on
      status 200 with at least one result. */
  function PageIdOf(resp: Response): (r: Option<string>)
    ensures r.Some? <==> resp.status == 200 && |resp.results| > 0
    ensures r.Some? ==> r.value == resp.results[0].id
  {
    if resp.status == 200 && |resp.results| > 0 then Some(resp.results[0].id) else None
  }

  /** The `if not parent_page_id` test: no id, or an empty one. */
  predicate Resolved(id: Option<string>)
  {
    id.Some? && id.value != ""
  }

  /** `get_child_pages`'s choice: the listed pages on status 200, no page
      otherwise. */
  function ChildrenOf(resp: Response): (r: seq<Page>)
    ensures resp.status != 200 ==> r == []
    ensures resp.status == 200 ==> r == resp.results
  {
    if resp.status == 200 then resp.results else []
  }

  /** `get_page_content`'s choice: the storage body on status 200, the
      empty text otherwise. */
  function ContentOf(resp: Response): (r: string)
    ensures resp.status != 200 ==> r == ""
    ensures resp.status == 200 ==> r == resp.body
  {
    if resp.status == 200 then resp.body else ""
  }

  /** `get_pageid_by_title`: one search by title in the space. */
  method GetPageIdByTitle(store: Store, title: string, spaceKey: string) returns (id: Option<string>)
    modifies store
    ensures store.exchanges == old(store.exchanges)
      + [Exchange(FindPage(title, spaceKey), store.answer(|old(store.exchanges)|, FindPage(title, spaceKey)))]
    ensures id == PageIdOf(store.answer(|old(store.exchanges)|, FindPage(title, spaceKey)))
  {
    var response := store.Send(FindPage(title, spaceKey));
    if response.status == 200 {
      var results := response.results;
      if |results| > 0 {
        return Some(results[0].id);
      }
    }
    return None;
  }

  /** `get_child_pages`: one listing of a page's children. */
  method GetChildPages(store: Store, parentPageId: string) returns (pages: seq<Page>)
    modifies store
    ensures store.exchanges == old(store.exchanges)
      + [Exchange(ListChildren(parentPageId), store.answer(|old(store.exchanges)|, ListChildren(parentPageId)))]
    ensures pages == ChildrenOf(store.answer(|old(store.exchanges)|, ListChildren(parentPageId)))
  {
    var response := store.Send(ListChildren(parentPageId));
    if response.status == 200 {
      return response.results;
    } else {
      return [];
    }
  }

  /** `get_page_content`: one fetch of a page's storage body. */
  method GetPageContent(store: Store, pageId: string) returns (content: string)
    modifies store
    ensures store.exchanges == old(store.exchanges)
      + [Exchange(GetContent(pageId), store.answer(|old(store.exchanges)|, GetContent(pageId)))]
    ensures content == ContentOf(store.answer(|old(store.exchanges)|, GetContent(pageId)))
  {
    var response := store.Send(GetContent(pageId));
    if response.status == 200 {
      return response.body;
    } else {
      return "";
    }
  }

  /** The calls made by a loop over `xs` whose iteration for `x`, after
      `n` earlier calls, makes the calls `log(n, x)`. */
  function Logs<T>(log: (nat, T) -> seq<Exchange>, n: nat, xs: seq<T>): seq<Exchange>
    decreases |xs|
  {
    if xs == [] then []
    else
      var before := Logs(log, n, xs[..|xs| - 1]);
      before + log(n + |before|, xs[|xs| - 1])
  }

  /** One more iteration of such a loop, after `base` and the calls of the
      first `i` iterations. */
  lemma LogsStep<T>(log: (nat, T) -> seq<Exchange>, n: nat, xs: seq<T>, i: nat, base: seq<Exchange>, prev: seq<Exchange>)
    requires i < |xs| && |base| == n
    requires prev == base + Logs(log, n, xs[..i])
    ensures prev + log(|prev|, xs[i]) == base + Logs(log, n, xs[..i + 1])
  {
    assert xs[..i + 1][..i] == xs[..i];
    var before := Logs(log, n, xs[..i]);
    assert base + (before + log(|prev|, xs[i])) == (base + before) + log(|prev|, xs[i]);
  }
}
