/**
 The data the two reports fetch from GitHub's GraphQL `search` operation, and
 the cursor protocol that walks from one result page to the next.

 The HTTP round trip is replaced by a `PageSource`: the page the server answers
 to a request carrying a given `after:` cursor.
 */
module Pages {

  /** One node of `search.nodes`, reduced to the fields the reports read:
      its `closed` flag and the logins of `assignees.nodes`, in order. */
  datatype Issue = Issue(closed: bool, assignees: seq<string>)

  /** One `search` result: its nodes and its `pageInfo`. */
  datatype Page = Page(nodes: seq<Issue>, hasNextPage: bool, endCursor: string)

  /** The server: the page it returns for a query whose `after:` is the given cursor text. */
  type PageSource = string -> Page

  /** The cursor text of the first request: the GraphQL literal `null`, unquoted. */
  const Null: string := "null"

  /** The cursor text of a later request: the previous page's `endCursor` as a
      GraphQL string literal, `'"%s"' % endCursor`. */
  function Quote(endCursor: string): (c: string)
    ensures |c| == |endCursor| + 2 && c[0] == '"' && c[|c| - 1] == '"'
    ensures c[1..|c| - 1] == endCursor
  {
    "\"" + endCursor + "\""
  }

  /** The first cursor is never a quoted literal, so it cannot be confused
      with the cursor of any later request. */
  lemma NullIsNotQuoted(endCursor: string)
    ensures Null != Quote(endCursor)
  {
    assert Null[0] == 'n';
  }

  /** Quoting loses nothing: distinct end cursors give distinct requests. */
  lemma QuoteInjective(a: string, b: string)
    requires Quote(a) == Quote(b)
    ensures a == b
  {
    var qa, qb := Quote(a), Quote(b);
    assert a == qa[1..|qa| - 1];
    assert b == qb[1..|qb| - 1];
  }

  /** Starting at `cursor`, the server reports `hasNextPage == false` within `n` pages. */
  ghost predicate Ends(fetch: PageSource, cursor: string, n: nat)
    decreases n
  {
    n > 0 && (fetch(cursor).hasNextPage ==> Ends(fetch, Quote(fetch(cursor).endCursor), n - 1))
  }

  /** The pages a `while has_next_page` loop receives when it starts at `cursor`,
      in request order. */
  ghost function Walk(fetch: PageSource, cursor: string, n: nat): (w: seq<Page>)
    requires Ends(fetch, cursor, n)
    ensures 1 <= |w| <= n
    decreases n
  {
    var p := fetch(cursor);
    if p.hasNextPage then [p] + Walk(fetch, Quote(p.endCursor), n - 1) else [p]
  }

  /** The cursor text of request `k` in a run that started at `start` and
      received the pages `w`: `start` for the first request, the quoted
      `endCursor` of the page just before it for every later one. */
  function CursorFor(start: string, w: seq<Page>, k: nat): string
    requires k <= |w|
  {
    if k == 0 then start else Quote(w[k - 1].endCursor)
  }

  /** A run from `start` that received `w`: every page is the answer to the
      cursor built from the page before it, every page but the last says
      there is a next page, and the last one says there is not. */
  ghost predicate FollowsCursors(fetch: PageSource, start: string, w: seq<Page>)
  {
    && |w| > 0
    && (forall k {:trigger CursorFor(start, w, k)} :: 0 <= k < |w| ==> w[k] == fetch(CursorFor(start, w, k)))
    && (forall k :: 0 <= k < |w| - 1 ==> w[k].hasNextPage)
    && !w[|w| - 1].hasNextPage
  }

  /** Behind its first page, a run's cursors are those of a run from the
      cursor that page builds. */
  lemma CursorForTail(start: string, p: Page, rest: seq<Page>, k: nat)
    requires k <= |rest|
    ensures CursorFor(start, [p] + rest, k + 1) == CursorFor(Quote(p.endCursor), rest, k)
  {
    if k > 0 { assert ([p] + rest)[k] == rest[k - 1]; }
  }

  /** A page with a next page, followed by a run from the cursor it builds,
      is a run. */
  lemma FollowsCons(fetch: PageSource, start: string, rest: seq<Page>)
    requires fetch(start).hasNextPage
    requires FollowsCursors(fetch, Quote(fetch(start).endCursor), rest)
    ensures FollowsCursors(fetch, start, [fetch(start)] + rest)
  {
    var p := fetch(start);
    var w := [p] + rest;
    forall k | 0 <= k < |w|
      ensures w[k] == fetch(CursorFor(start, w, k))
    {
      if k > 0 {
        assert w[k] == rest[k - 1];
        CursorForTail(start, p, rest, k - 1);
      }
    }
    forall k | 0 <= k < |w| - 1
      ensures w[k].hasNextPage
    {
      if k > 0 { assert w[k] == rest[k - 1]; }
    }
    assert w[|w| - 1] == rest[|rest| - 1];
  }

  /** A run whose first page has a next page goes on as a run from the
      cursor that page builds. */
  lemma FollowsTail(fetch: PageSource, start: string, w: seq<Page>)
    requires FollowsCursors(fetch, start, w) && w[0].hasNextPage
    ensures |w| > 1 && w == [w[0]] + w[1..]
    ensures FollowsCursors(fetch, Quote(w[0].endCursor), w[1..])
  {
    var p, rest := w[0], w[1..];
    assert |w| > 1;
    assert w == [p] + rest;
    forall k | 0 <= k < |rest|
      ensures rest[k] == fetch(CursorFor(Quote(p.endCursor), rest, k))
    {
      assert rest[k] == w[k + 1];
      CursorForTail(start, p, rest, k);
    }
    forall k | 0 <= k < |rest| - 1
      ensures rest[k].hasNextPage
    {
      assert rest[k] == w[k + 1];
    }
    assert rest[|rest| - 1] == w[|w| - 1];
  }

  /** The walk is such a run: each page is requested once, in order, with the
      cursor of the page before, and the walk stops right after the first page
      that has no next page. */
  lemma {:induction false} WalkFollowsCursors(fetch: PageSource, start: string, n: nat)
    requires Ends(fetch, start, n)
    ensures FollowsCursors(fetch, start, Walk(fetch, start, n))
    decreases n
  {
    var p := fetch(start);
    if p.hasNextPage {
      var next := Quote(p.endCursor);
      WalkFollowsCursors(fetch, next, n - 1);
      FollowsCons(fetch, start, Walk(fetch, next, n - 1));
    } else {
      assert Walk(fetch, start, n) == [p];
    }
  }

  /** And it is the only one: there is exactly one run from a cursor, so the
      walk does not depend on the bound used to show that it ends. */
  lemma {:induction false} OnlyRun(fetch: PageSource, start: string, w: seq<Page>, n: nat)
    requires Ends(fetch, start, n)
    requires FollowsCursors(fetch, start, w)
    ensures w == Walk(fetch, start, n)
    decreases n
  {
    var p := fetch(start);
    assert CursorFor(start, w, 0) == start;
    assert w[0] == p;
    if p.hasNextPage {
      FollowsTail(fetch, start, w);
      OnlyRun(fetch, Quote(p.endCursor), w[1..], n - 1);
    } else {
      assert |w| == 1;
    }
  }

  /** `requests` are the cursor texts of a run from `start` that received
      `pages`: one request per page, each built from the page before it, and
      each page the server's answer to its request. */
  ghost predicate RequestLog(fetch: PageSource, start: string, requests: seq<string>, pages: seq<Page>)
  {
    && |requests| == |pages|
    && forall k {:trigger requests[k]} :: 0 <= k < |pages| ==> requests[k] == CursorFor(start, pages, k) && fetch(requests[k]) == pages[k]
  }

  /** Sending the cursor built from the last page received, and receiving
      the server's answer, extends the log by one request. */
  lemma RequestLogStep(fetch: PageSource, start: string, requests: seq<string>, pages: seq<Page>, cursor: string)
    requires RequestLog(fetch, start, requests, pages)
    requires cursor == CursorFor(start, pages, |pages|)
    ensures RequestLog(fetch, start, requests + [cursor], pages + [fetch(cursor)])
  {
    var requests', pages' := requests + [cursor], pages + [fetch(cursor)];
    forall k | 0 <= k < |pages'|
      ensures requests'[k] == CursorFor(start, pages', k) && fetch(requests'[k]) == pages'[k]
    {
      if 0 < k { assert pages'[k - 1] == pages[k - 1]; }
      if k < |pages| {
        assert requests'[k] == requests[k] && pages'[k] == pages[k];
      } else {
        assert requests'[k] == cursor;
      }
    }
  }

  /** The state of a `while has_next_page` loop from `start` after it has
      received `received`: while there is a next page, `cursor` is the one
      built from the last page received and the rest of the walk follows from
      it; once there is none, all of the walk has been received. */
  ghost predicate Progress(fetch: PageSource, start: string, bound: nat,
                           received: seq<Page>, cursor: string, hasNextPage: bool, fuel: nat)
    requires Ends(fetch, start, bound)
  {
    if hasNextPage then
      && Ends(fetch, cursor, fuel)
      && received + Walk(fetch, cursor, fuel) == Walk(fetch, start, bound)
      && cursor == CursorFor(start, received, |received|)
    else
      received == Walk(fetch, start, bound)
  }

  /** No page has been received yet and the first request goes to `start`. */
  lemma ProgressStart(fetch: PageSource, start: string, bound: nat)
    requires Ends(fetch, start, bound)
    ensures Progress(fetch, start, bound, [], start, true, bound)
  {
    assert [] + Walk(fetch, start, bound) == Walk(fetch, start, bound);
  }

  /** One iteration: receive the answer to `cursor`, then move the cursor on
      if that page says there is a next one, or stop. */
  lemma ProgressStep(fetch: PageSource, start: string, bound: nat,
                     received: seq<Page>, cursor: string, fuel: nat)
    requires Ends(fetch, start, bound)
    requires Progress(fetch, start, bound, received, cursor, true, fuel)
    ensures fuel > 0
    ensures var p := fetch(cursor);
            Progress(fetch, start, bound, received + [p], Quote(p.endCursor), p.hasNextPage, fuel - 1)
  {
    var p := fetch(cursor);
    var received' := received + [p];
    if p.hasNextPage {
      var next := Quote(p.endCursor);
      assert Walk(fetch, cursor, fuel) == [p] + Walk(fetch, next, fuel - 1);
      assert received' + Walk(fetch, next, fuel - 1) == received + Walk(fetch, cursor, fuel);
      assert CursorFor(start, received', |received'|) == next;
    } else {
      assert Walk(fetch, cursor, fuel) == [p];
    }
  }
}
