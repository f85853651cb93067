/** The crawl loop `crawl_repos` (src/crawler.py:15-61): request a page of
    search results with the current cursor, stop on an empty page, upsert the
    page, count it, move the cursor, report progress, until `target`
    repositories have been counted.

    The run is specified over `pages`, what the loop reads from the response
    to each request; for a provider of raw responses that is `Reader(provider)`.
    The provider is a deterministic function from request to response. */
module Crawler {
  import opened Wrappers
  import opened GraphQL
  import opened Repositories

  /** `batch_size`: the `first` variable of every request. */
  const BatchSize: int := 100

  /** A progress line is printed whenever the running total is a multiple of this. */
  const ProgressInterval: int := 1000

  /** The record one edge becomes (src/crawler.py:46-47): the node's id, name
      and star count, and its creation time with the `Z` designator replaced. */
  function ToRecord(e: Edge): (r: Record)
    ensures r.id == e.node.id && r.fullName == e.node.nameWithOwner && r.stars == e.node.stargazerCount
    ensures 'Z' !in r.createdAt.iso
    ensures 'Z' !in e.node.createdAt ==> r.createdAt.iso == e.node.createdAt
    ensures r.createdAt == Timestamp(NormalizeUtc(e.node.createdAt))
  {
    var iso := NormalizeUtc(e.node.createdAt);
    assert 'Z' !in e.node.createdAt ==> iso == e.node.createdAt by {
      if 'Z' !in e.node.createdAt {
        NormalizeUtcKeepsText(e.node.createdAt);
      }
    }
    Record(e.node.id, e.node.nameWithOwner, e.node.stargazerCount, Timestamp(iso))
  }

  /** The records of a page, one per edge and in edge order (src/crawler.py:46-48). */
  function Records(edges: seq<Edge>): (rs: seq<Record>)
    ensures |rs| == |edges|
    ensures forall i {:trigger rs[i]} :: 0 <= i < |edges| ==> rs[i] == ToRecord(edges[i])
  {
    seq(|edges|, i requires 0 <= i < |edges| => ToRecord(edges[i]))
  }

  /** A page's records carry exactly the ids of its nodes. */
  lemma {:induction false} RecordsIds(edges: seq<Edge>)
    ensures Ids(Records(edges)) == set e | e in edges :: e.node.id
    decreases |edges|
  {
    if edges != [] {
      var rs := Records(edges);
      assert rs[1..] == Records(edges[1..]);
      RecordsIds(edges[1..]);
      assert Ids(rs) == {edges[0].node.id} + Ids(Records(edges[1..]));
      assert forall e :: e in edges <==> e == edges[0] || e in edges[1..];
    }
  }

  function Last<T>(s: seq<T>): T
    requires s != []
  {
    s[|s| - 1]
  }

  /** The cursor after a non-empty page: the last edge's cursor while the
      provider reports a next page, and no cursor (the first page) otherwise. */
  function NextCursor(edges: seq<Edge>, hasNext: bool): (c: Option<Cursor>)
    requires edges != []
    ensures c.Some? <==> hasNext
    ensures c.Some? ==> c.value == Last(edges).cursor
  {
    if hasNext then Some(edges[|edges| - 1].cursor) else None
  }

  /** The progress lines printed after a page brought the total to `total`. */
  function Report(total: int): (lines: seq<int>)
    ensures lines == [total] || lines == []
    ensures lines != [] <==> total % ProgressInterval == 0
  {
    if total % ProgressInterval == 0 then [total] else []
  }

  datatype Status = Completed | Crashed(fault: Fault)

  /** Everything a run produces: how it ended, the final `total`, the table, the
      requests it sent and the totals it printed as progress. */
  datatype Outcome = Outcome(status: Status, total: int, rows: Table, requests: seq<Request>, progress: seq<int>)

  /** What the loop reads from the provider's response to each request. */
  function Reader(provider: Request -> Response): Request -> Reading
  {
    request => Read(provider(request))
  }

  /** Whether the loop goes on after this page: it has edges and its
      `hasNextPage` could be read. */
  predicate Continues(page: Reading)
  {
    page.Page? && page.edges != [] && page.hasNext.Ok?
  }

  /** `next` is the request sent after the page read for `previous`: that page
      had edges and a readable `hasNextPage`, and `next` carries the cursor it
      left. */
  predicate Follows(pages: Request -> Reading, previous: Request, next: Request)
  {
    var page := pages(previous);
    Continues(page) && next.cursor == NextCursor(page.edges, page.hasNext.value)
  }

  /** The records a page contributes: its edges' records, or none when reading
      the edges failed. */
  function PageRecords(page: Reading): (rs: seq<Record>)
    ensures page.Failed? ==> rs == []
    ensures page.Page? ==> rs == Records(page.edges)
  {
    match page
    case Failed(_) => []
    case Page(edges, _) => Records(edges)
  }

  /** How the run ends on a page after which the loop does not go on. An
      exception while reading the edges ends it with nothing stored or counted.
      A page without edges leaves the loop (`break`) and the run completes. A
      page whose `hasNextPage` cannot be read has already been upserted and
      counted when the exception is raised. */
  function LastPage(request: Request, page: Reading, total: int, rows: Table): (o: Outcome)
    requires !Continues(page)
    ensures o.requests == [request] && o.progress == []
    ensures page.Failed? ==> o.status == Crashed(page.fault) && o.total == total && o.rows == rows
    ensures page.Page? && page.edges == [] ==> o.status == Completed && o.total == total && o.rows == rows
    ensures page.Page? && page.edges != [] ==>
              page.hasNext.Err? && o.status == Crashed(page.hasNext.error) &&
              o.total == total + |page.edges| && o.rows == UpsertAll(rows, Records(page.edges))
  {
    match page
    case Failed(fault) => Outcome(Crashed(fault), total, rows, [request], [])
    case Page(edges, hasNext) =>
      if edges == [] then Outcome(Completed, total, rows, [request], [])
      else Outcome(Crashed(hasNext.error), total + |edges|, UpsertAll(rows, Records(edges)), [request], [])
  }

  /** The run from a given `total`, `cursor` and table contents. It sends a
      request exactly when `total` is below the target, and `total` never
      decreases. */
  function Crawl(pages: Request -> Reading, target: int, total: int, cursor: Option<Cursor>, rows: Table): (o: Outcome)
    ensures o.requests == [] <==> total >= target
    ensures total <= o.total
    decreases target - total
  {
    if total >= target then Outcome(Completed, total, rows, [], [])
    else
      var request := Request(BatchSize, cursor);
      var page := pages(request);
      if !Continues(page) then LastPage(request, page, total, rows)
      else
        var total' := total + |page.edges|;
        var rest := Crawl(pages, target, total', NextCursor(page.edges, page.hasNext.value),
                          UpsertAll(rows, Records(page.edges)));
        rest.(requests := [request] + rest.requests, progress := Report(total') + rest.progress)
  }

  /** The loop goes on from the state (`total`, `cursor`, `rows`) to the state
      (`total'`, `cursor'`, `rows'`): the page read with `cursor` has edges and
      a readable `hasNextPage`, it was counted and stored, and the cursor moved. */
  predicate Steps(pages: Request -> Reading, total: int, cursor: Option<Cursor>, rows: Table,
                  total': int, cursor': Option<Cursor>, rows': Table)
  {
    var page := pages(Request(BatchSize, cursor));
    && Continues(page)
    && total' == total + |page.edges|
    && cursor' == NextCursor(page.edges, page.hasNext.value)
    && rows' == UpsertAll(rows, Records(page.edges))
  }

  /** `o` is the run that sent `request`, reached `total'` with that page and
      went on as `rest`. */
  predicate Prepends(request: Request, total': int, rest: Outcome, o: Outcome)
  {
    o == rest.(requests := [request] + rest.requests, progress := Report(total') + rest.progress)
  }

  /** One turn of the loop, for a page after which it goes on. */
  lemma CrawlStep(pages: Request -> Reading, target: int, total: int, cursor: Option<Cursor>, rows: Table,
                  total': int, cursor': Option<Cursor>, rows': Table)
    requires total < target && Steps(pages, total, cursor, rows, total', cursor', rows')
    ensures Prepends(Request(BatchSize, cursor), total', Crawl(pages, target, total', cursor', rows'),
                     Crawl(pages, target, total, cursor, rows))
  {
    var request := Request(BatchSize, cursor);
    var page := pages(request);
    assert Continues(page) && total' == total + |page.edges|;
    assert cursor' == NextCursor(page.edges, page.hasNext.value) && rows' == UpsertAll(rows, Records(page.edges));
    var rest := Crawl(pages, target, total', cursor', rows');
    assert Crawl(pages, target, total, cursor, rows)
        == rest.(requests := [request] + rest.requests, progress := Report(total') + rest.progress);
  }

  /** The last turn of the loop. */
  lemma CrawlLast(pages: Request -> Reading, target: int, total: int, cursor: Option<Cursor>, rows: Table)
    requires total < target && !Continues(pages(Request(BatchSize, cursor)))
    ensures Crawl(pages, target, total, cursor, rows)
         == LastPage(Request(BatchSize, cursor), pages(Request(BatchSize, cursor)), total, rows)
  {
  }

  /** All records fetched by a sequence of requests, in order. */
  function Fetched(pages: Request -> Reading, requests: seq<Request>): seq<Record>
    decreases |requests|
  {
    if requests == [] then []
    else PageRecords(pages(requests[0])) + Fetched(pages, requests[1..])
  }

  /** The records fetched by two runs of requests in turn. */
  lemma {:induction false} FetchedAppend(pages: Request -> Reading, a: seq<Request>, b: seq<Request>)
    ensures Fetched(pages, a + b) == Fetched(pages, a) + Fetched(pages, b)
    decreases |a|
  {
    if a == [] {
      assert a + b == b;
    } else {
      assert (a + b)[0] == a[0];
      assert (a + b)[1..] == a[1..] + b;
      FetchedAppend(pages, a[1..], b);
    }
  }

  // Each property of a run below is a predicate on its outcome, proved by
  // induction on the turns of the loop: the induction unfolds one turn
  // (`CrawlStep` or `CrawlLast`) and a step lemma carries the property from
  // the rest of the run to the whole of it.

  /** Why a run ends. It sends no request exactly when `total` already reaches
      the target, and `total` never decreases. It completes either with
      `total >= target` or right after a page without edges. It crashes only on
      the last page, whose edges or `hasNextPage` could not be read. */
  predicate Ended(pages: Request -> Reading, target: int, total: int, o: Outcome)
  {
    && (o.requests == [] <==> total >= target)
    && total <= o.total
    && (o.status == Completed && o.requests != [] ==>
          o.total >= target || (pages(Last(o.requests)).Page? && pages(Last(o.requests)).edges == []))
    && (o.status.Crashed? ==>
          o.requests != [] &&
          (pages(Last(o.requests)) == Failed(o.status.fault) ||
           (pages(Last(o.requests)).Page? && pages(Last(o.requests)).hasNext == Err(o.status.fault))))
  }

  lemma {:induction false} CrawlEnds(pages: Request -> Reading, target: int, total: int, cursor: Option<Cursor>, rows: Table)
    ensures Ended(pages, target, total, Crawl(pages, target, total, cursor, rows))
    decreases target - total
  {
    if total < target {
      var request := Request(BatchSize, cursor);
      var page := pages(request);
      if Continues(page) {
        var total', cursor', rows' := total + |page.edges|, NextCursor(page.edges, page.hasNext.value), UpsertAll(rows, Records(page.edges));
        CrawlEnds(pages, target, total', cursor', rows');
        CrawlStep(pages, target, total, cursor, rows, total', cursor', rows');
        EndsNext(pages, target, total, total', request, Crawl(pages, target, total', cursor', rows'), Crawl(pages, target, total, cursor, rows));
      } else {
        CrawlLast(pages, target, total, cursor, rows);
        assert Last([request]) == request;
      }
    }
  }

  lemma EndsNext(pages: Request -> Reading, target: int, total: int, total': int, request: Request, rest: Outcome, o: Outcome)
    requires total < target && total <= total' && Continues(pages(request))
    requires Prepends(request, total', rest, o) && Ended(pages, target, total', rest)
    ensures Ended(pages, target, total, o)
  {
    if rest.requests != [] {
      assert Last(o.requests) == Last(rest.requests);
    } else {
      assert o.requests == [request];
    }
  }

  /** Accounting: the final `total` is the starting one plus the number of
      records fetched, and the final table is the starting one with all those
      records upserted in fetch order. A page without edges contributes
      nothing to either. */
  predicate Accounted(pages: Request -> Reading, total: int, rows: Table, o: Outcome)
  {
    o.total == total + |Fetched(pages, o.requests)| && o.rows == UpsertAll(rows, Fetched(pages, o.requests))
  }

  lemma {:induction false} CrawlAccounting(pages: Request -> Reading, target: int, total: int, cursor: Option<Cursor>, rows: Table)
    ensures Accounted(pages, total, rows, Crawl(pages, target, total, cursor, rows))
    decreases target - total
  {
    if total >= target {
      assert UpsertAll(rows, []) == rows;
    } else {
      var request := Request(BatchSize, cursor);
      var page := pages(request);
      if Continues(page) {
        var total', cursor', rows' := total + |page.edges|, NextCursor(page.edges, page.hasNext.value), UpsertAll(rows, Records(page.edges));
        CrawlAccounting(pages, target, total', cursor', rows');
        CrawlStep(pages, target, total, cursor, rows, total', cursor', rows');
        AccountingNext(pages, total, rows, total', request, Crawl(pages, target, total', cursor', rows'), Crawl(pages, target, total, cursor, rows));
      } else {
        CrawlLast(pages, target, total, cursor, rows);
        AccountingLast(pages, total, rows, request, Crawl(pages, target, total, cursor, rows));
      }
    }
  }

  lemma AccountingLast(pages: Request -> Reading, total: int, rows: Table, request: Request, o: Outcome)
    requires !Continues(pages(request)) && o == LastPage(request, pages(request), total, rows)
    ensures Accounted(pages, total, rows, o)
  {
    var page := pages(request);
    assert Fetched(pages, o.requests) == PageRecords(page) + [];
    assert PageRecords(page) + [] == PageRecords(page);
    if page.Failed? || page.edges == [] {
      assert UpsertAll(rows, []) == rows;
    }
  }

  lemma AccountingNext(pages: Request -> Reading, total: int, rows: Table, total': int, request: Request, rest: Outcome, o: Outcome)
    requires Continues(pages(request)) && total' == total + |pages(request).edges|
    requires Prepends(request, total', rest, o)
    requires Accounted(pages, total', UpsertAll(rows, Records(pages(request).edges)), rest)
    ensures Accounted(pages, total, rows, o)
  {
    var records := Records(pages(request).edges);
    var later := Fetched(pages, rest.requests);
    assert o.requests[1..] == rest.requests;
    assert Fetched(pages, o.requests) == records + later;
    UpsertAllAppend(rows, records, later);
  }

  /** A run that starts below the target sends a request and stops before the
      total exceeds the target by the size of the last page. */
  predicate Overshot(pages: Request -> Reading, target: int, o: Outcome)
  {
    o.requests != [] && o.total < target + |PageRecords(pages(Last(o.requests)))|
  }

  lemma {:induction false} CrawlOvershoot(pages: Request -> Reading, target: int, total: int, cursor: Option<Cursor>, rows: Table)
    requires total < target
    ensures Overshot(pages, target, Crawl(pages, target, total, cursor, rows))
    decreases target - total
  {
    var request := Request(BatchSize, cursor);
    var page := pages(request);
    if Continues(page) {
      var total', cursor', rows' := total + |page.edges|, NextCursor(page.edges, page.hasNext.value), UpsertAll(rows, Records(page.edges));
      CrawlStep(pages, target, total, cursor, rows, total', cursor', rows');
      if total' < target {
        CrawlOvershoot(pages, target, total', cursor', rows');
        OvershootNext(pages, target, total', request, Crawl(pages, target, total', cursor', rows'), Crawl(pages, target, total, cursor, rows));
      } else {
        assert Crawl(pages, target, total', cursor', rows') == Outcome(Completed, total', rows', [], []);
        OvershootFinal(pages, target, total, total', request, Crawl(pages, target, total', cursor', rows'), Crawl(pages, target, total, cursor, rows));
      }
    } else {
      CrawlLast(pages, target, total, cursor, rows);
      assert Last([request]) == request;
    }
  }

  /** The page that reaches the target is the last one. */
  lemma OvershootFinal(pages: Request -> Reading, target: int, total: int, total': int, request: Request, rest: Outcome, o: Outcome)
    requires total < target && Continues(pages(request)) && total' == total + |pages(request).edges|
    requires Prepends(request, total', rest, o) && rest.requests == [] && rest.total == total'
    ensures Overshot(pages, target, o)
  {
    assert o.requests == [request];
    assert Last([request]) == request;
  }

  lemma OvershootNext(pages: Request -> Reading, target: int, total': int, request: Request, rest: Outcome, o: Outcome)
    requires Prepends(request, total', rest, o) && Overshot(pages, target, rest)
    ensures Overshot(pages, target, o)
  {
    assert Last(o.requests) == Last(rest.requests);
  }

  /** The requests form a cursor chain: each asks for `first = 100`, the first
      one carries the starting cursor, and each later one carries the cursor
      left by the page before it, a page that had edges and a readable
      `hasNextPage`. */
  predicate Chained(pages: Request -> Reading, cursor: Option<Cursor>, o: Outcome)
  {
    && (forall i :: 0 <= i < |o.requests| ==> o.requests[i].first == BatchSize)
    && (o.requests != [] ==> o.requests[0].cursor == cursor)
    && (forall i :: 0 <= i < |o.requests| - 1 ==> Follows(pages, o.requests[i], o.requests[i + 1]))
  }

  lemma {:induction false} CrawlRequestChain(pages: Request -> Reading, target: int, total: int, cursor: Option<Cursor>, rows: Table)
    ensures Chained(pages, cursor, Crawl(pages, target, total, cursor, rows))
    decreases target - total
  {
    if total < target {
      var request := Request(BatchSize, cursor);
      var page := pages(request);
      if Continues(page) {
        var total', cursor', rows' := total + |page.edges|, NextCursor(page.edges, page.hasNext.value), UpsertAll(rows, Records(page.edges));
        CrawlRequestChain(pages, target, total', cursor', rows');
        CrawlStep(pages, target, total, cursor, rows, total', cursor', rows');
        ChainNext(pages, cursor, cursor', total', Crawl(pages, target, total', cursor', rows'), Crawl(pages, target, total, cursor, rows));
      } else {
        CrawlLast(pages, target, total, cursor, rows);
      }
    }
  }

  lemma ChainNext(pages: Request -> Reading, cursor: Option<Cursor>, cursor': Option<Cursor>, total': int, rest: Outcome, o: Outcome)
    requires var page := pages(Request(BatchSize, cursor));
      Continues(page) && cursor' == NextCursor(page.edges, page.hasNext.value)
    requires Prepends(Request(BatchSize, cursor), total', rest, o) && Chained(pages, cursor', rest)
    ensures Chained(pages, cursor, o)
  {
    forall i | 0 <= i < |o.requests|
      ensures o.requests[i].first == BatchSize
    {
      if i > 0 {
        assert o.requests[i] == rest.requests[i - 1];
      }
    }
    forall i | 0 <= i < |o.requests| - 1
      ensures Follows(pages, o.requests[i], o.requests[i + 1])
    {
      assert o.requests[i + 1] == rest.requests[i];
      if i > 0 {
        assert o.requests[i] == rest.requests[i - 1];
      }
    }
  }

  /** Progress lines: each printed total is a multiple of 1000, lies above the
      starting total and at most the final one, and they are printed in
      strictly increasing order. */
  predicate Progressed(total: int, o: Outcome)
  {
    && total <= o.total
    && (forall i :: 0 <= i < |o.progress| ==>
          o.progress[i] % ProgressInterval == 0 && total < o.progress[i] <= o.total)
    && (forall i, j :: 0 <= i < j < |o.progress| ==> o.progress[i] < o.progress[j])
  }

  lemma {:induction false} CrawlProgress(pages: Request -> Reading, target: int, total: int, cursor: Option<Cursor>, rows: Table)
    ensures Progressed(total, Crawl(pages, target, total, cursor, rows))
    decreases target - total
  {
    if total < target {
      var request := Request(BatchSize, cursor);
      var page := pages(request);
      if Continues(page) {
        var total', cursor', rows' := total + |page.edges|, NextCursor(page.edges, page.hasNext.value), UpsertAll(rows, Records(page.edges));
        CrawlProgress(pages, target, total', cursor', rows');
        CrawlStep(pages, target, total, cursor, rows, total', cursor', rows');
        ProgressNext(total, total', request, Crawl(pages, target, total', cursor', rows'), Crawl(pages, target, total, cursor, rows));
      } else {
        CrawlLast(pages, target, total, cursor, rows);
      }
    }
  }

  lemma ProgressNext(total: int, total': int, request: Request, rest: Outcome, o: Outcome)
    requires total < total' && Prepends(request, total', rest, o) && Progressed(total', rest)
    ensures Progressed(total, o)
  {
    var report := Report(total');
    assert o.progress == report + rest.progress;
    forall i | 0 <= i < |o.progress|
      ensures o.progress[i] % ProgressInterval == 0 && total < o.progress[i] <= o.total
    {
      if i >= |report| {
        assert o.progress[i] == rest.progress[i - |report|];
      }
    }
    forall i, j | 0 <= i < j < |o.progress|
      ensures o.progress[i] < o.progress[j]
    {
      if i >= |report| {
        assert o.progress[i] == rest.progress[i - |report|];
      }
      assert o.progress[j] == rest.progress[j - |report|];
    }
  }

  /** The running totals after each page the loop went on from, in order. */
  function Checkpoints(pages: Request -> Reading, total: int, requests: seq<Request>): seq<int>
    decreases |requests|
  {
    if requests == [] || !Continues(pages(requests[0])) then []
    else
      var total' := total + |pages(requests[0]).edges|;
      [total'] + Checkpoints(pages, total', requests[1..])
  }

  /** A total is printed as progress exactly when the loop went on from a page
      that brought the running total to it and it is a multiple of 1000. */
  ghost predicate ReportsCheckpoints(pages: Request -> Reading, total: int, o: Outcome)
  {
    forall t :: t in o.progress <==> t in Checkpoints(pages, total, o.requests) && t % ProgressInterval == 0
  }

  lemma {:induction false} CrawlProgressExact(pages: Request -> Reading, target: int, total: int, cursor: Option<Cursor>, rows: Table)
    ensures ReportsCheckpoints(pages, total, Crawl(pages, target, total, cursor, rows))
    decreases target - total
  {
    if total < target {
      var request := Request(BatchSize, cursor);
      var page := pages(request);
      if Continues(page) {
        var total', cursor', rows' := total + |page.edges|, NextCursor(page.edges, page.hasNext.value), UpsertAll(rows, Records(page.edges));
        CrawlProgressExact(pages, target, total', cursor', rows');
        CrawlStep(pages, target, total, cursor, rows, total', cursor', rows');
        CheckpointsNext(pages, total, total', request, Crawl(pages, target, total', cursor', rows'), Crawl(pages, target, total, cursor, rows));
      } else {
        CrawlLast(pages, target, total, cursor, rows);
        assert Checkpoints(pages, total, [request]) == [];
      }
    }
  }

  lemma CheckpointsNext(pages: Request -> Reading, total: int, total': int, request: Request, rest: Outcome, o: Outcome)
    requires Continues(pages(request)) && total' == total + |pages(request).edges|
    requires Prepends(request, total', rest, o) && ReportsCheckpoints(pages, total', rest)
    ensures ReportsCheckpoints(pages, total, o)
  {
    assert o.requests[1..] == rest.requests;
    assert Checkpoints(pages, total, o.requests) == [total'] + Checkpoints(pages, total', rest.requests);
  }

  /** The restart the cursor update causes: when the first page has edges but
      no next page, every request is the first-page request, so the run
      re-counts that one page until the target is reached, while the table
      holds it only once. */
  predicate RestartsOn(edges: seq<Edge>, target: int, total: int, rows: Table, o: Outcome)
  {
    && o.status == Completed
    && (forall i :: 0 <= i < |o.requests| ==> o.requests[i] == Request(BatchSize, None))
    && o.total == total + |o.requests| * |edges|
    && target <= o.total < target + |edges|
    && o.rows == UpsertAll(rows, Records(edges))
  }

  lemma {:induction false} SinglePageRestart(pages: Request -> Reading, target: int, total: int, rows: Table, edges: seq<Edge>)
    requires total < target
    requires pages(Request(BatchSize, None)) == Page(edges, Ok(false)) && edges != []
    ensures RestartsOn(edges, target, total, rows, Crawl(pages, target, total, None, rows))
    decreases target - total
  {
    var total', rows' := total + |edges|, UpsertAll(rows, Records(edges));
    assert Steps(pages, total, None, rows, total', None, rows');
    CrawlStep(pages, target, total, None, rows, total', None, rows');
    if total' < target {
      SinglePageRestart(pages, target, total', rows', edges);
      UpsertAllIdempotent(rows, Records(edges));
      RestartNext(edges, target, total, rows, Crawl(pages, target, total', None, rows'), Crawl(pages, target, total, None, rows));
    } else {
      assert Crawl(pages, target, total', None, rows') == Outcome(Completed, total', rows', [], []);
    }
  }

  lemma RestartNext(edges: seq<Edge>, target: int, total: int, rows: Table, rest: Outcome, o: Outcome)
    requires Prepends(Request(BatchSize, None), total + |edges|, rest, o)
    requires UpsertAll(UpsertAll(rows, Records(edges)), Records(edges)) == UpsertAll(rows, Records(edges))
    requires RestartsOn(edges, target, total + |edges|, UpsertAll(rows, Records(edges)), rest)
    ensures RestartsOn(edges, target, total, rows, o)
  {
    forall i | 0 <= i < |o.requests|
      ensures o.requests[i] == Request(BatchSize, None)
    {
      if i > 0 {
        assert o.requests[i] == rest.requests[i - 1];
      }
    }
    TimesSucc(|rest.requests|, |edges|);
  }

  lemma TimesSucc(n: nat, k: nat)
    ensures (n + 1) * k == k + n * k
  {
  }

  /** The ids a request's page carries. */
  function PageIds(pages: Request -> Reading): Request -> set<NodeId>
  {
    request => Ids(PageRecords(pages(request)))
  }

  /** The ids gathered by the first `k` requests, where `idsOf` gives the ids
      of each request's page. */
  function IdsUpTo(idsOf: Request -> set<NodeId>, requests: seq<Request>, k: int): set<NodeId>
    requires 0 <= k <= |requests|
  {
    if k == 0 then {} else IdsUpTo(idsOf, requests, k - 1) + idsOf(requests[k - 1])
  }

  /** The records of the first `k` requests are those of the first `k - 1`
      followed by the page of request `k - 1`. */
  lemma FetchedSnoc(pages: Request -> Reading, requests: seq<Request>, k: int)
    requires 0 < k <= |requests|
    ensures Fetched(pages, requests[..k]) == Fetched(pages, requests[..k - 1]) + PageRecords(pages(requests[k - 1]))
  {
    var page := PageRecords(pages(requests[k - 1]));
    assert requests[..k] == requests[..k - 1] + [requests[k - 1]];
    FetchedAppend(pages, requests[..k - 1], [requests[k - 1]]);
    assert Fetched(pages, [requests[k - 1]]) == page + [];
    assert page + [] == page;
  }

  /** The page ids gathered by the first `k` requests are the ids of the
      records they fetch. */
  lemma {:induction false} FetchedIdsPrefix(pages: Request -> Reading, requests: seq<Request>, k: int)
    requires 0 <= k <= |requests|
    ensures IdsUpTo(PageIds(pages), requests, k) == Ids(Fetched(pages, requests[..k]))
  {
    if k == 0 {
      assert requests[..0] == [];
    } else {
      FetchedIdsPrefix(pages, requests, k - 1);
      FetchedSnoc(pages, requests, k);
      IdsAppend(Fetched(pages, requests[..k - 1]), PageRecords(pages(requests[k - 1])));
    }
  }

  /** Every page among the first `k` contributes its ids. */
  lemma {:induction false} PageIdsGathered(idsOf: Request -> set<NodeId>, requests: seq<Request>, i: int, k: int)
    requires 0 <= i < k <= |requests|
    ensures idsOf(requests[i]) <= IdsUpTo(idsOf, requests, k)
  {
    if i < k - 1 {
      PageIdsGathered(idsOf, requests, i, k - 1);
    }
  }

  /** The ids of a page fetched a second time are among the ids fetched before. */
  lemma RepeatedPageIds(pages: Request -> Reading, requests: seq<Request>, i: int, j: int)
    requires 0 <= i < j < |requests| && requests[i] == requests[j]
    ensures Ids(PageRecords(pages(requests[j]))) <= Ids(Fetched(pages, requests[..j]))
  {
    PageIdsGathered(PageIds(pages), requests, i, j);
    FetchedIdsPrefix(pages, requests, j);
  }

  /** A request sent a second time brings no new id: it is answered with the
      same page, whose ids are already stored, so the page at most updates
      star counts. */
  lemma RepeatedRequestAddsNoIds(pages: Request -> Reading, rows: Table, requests: seq<Request>, i: int, j: int)
    requires 0 <= i < j < |requests| && requests[i] == requests[j]
    ensures var before := UpsertAll(rows, Fetched(pages, requests[..j]));
      UpsertAll(before, PageRecords(pages(requests[j]))).Keys == before.Keys
  {
    var earlier := Fetched(pages, requests[..j]);
    RepeatedPageIds(pages, requests, i, j);
    UpsertAllKeys(rows, earlier);
    UpsertAllKeys(UpsertAll(rows, earlier), PageRecords(pages(requests[j])));
  }

  /** After a last page the cursor is reset, and the request that follows is
      the very first request again: that re-fetched first page adds no new id
      to the table, whatever it re-counts into `total`. */
  lemma CrawlRestartAddsNoIds(pages: Request -> Reading, target: int, total: int, rows: Table, j: int)
    ensures var o := Crawl(pages, target, total, None, rows);
      0 < j < |o.requests| && o.requests[j].cursor == None ==>
        var before := UpsertAll(rows, Fetched(pages, o.requests[..j]));
        UpsertAll(before, PageRecords(pages(o.requests[j]))).Keys == before.Keys
  {
    var o := Crawl(pages, target, total, None, rows);
    if 0 < j < |o.requests| && o.requests[j].cursor == None {
      CrawlRequestChain(pages, target, total, None, rows);
      assert o.requests[j] == o.requests[0];
      RepeatedRequestAddsNoIds(pages, rows, o.requests, 0, j);
    }
  }

  /** Once a cursor chain comes back to its first request it repeats itself:
      every later request is the one `j` places before it. */
  lemma {:induction false} ChainRepeats(pages: Request -> Reading, cursor: Option<Cursor>, o: Outcome, j: int, k: int)
    requires Chained(pages, cursor, o) && 0 < j <= k < |o.requests| && o.requests[j] == o.requests[0]
    ensures o.requests[k] == o.requests[k - j]
    decreases k
  {
    if k > j {
      ChainRepeats(pages, cursor, o, j, k - 1);
      assert Follows(pages, o.requests[k - 1], o.requests[k]);
      assert Follows(pages, o.requests[k - 1 - j], o.requests[k - j]);
    }
  }

  /** From position `j` on, every request is the one `j` places before it. */
  predicate Periodic(requests: seq<Request>, j: int)
  {
    forall n, m :: 0 <= n < |requests| && 0 <= m <= n && m == n - j ==> requests[n] == requests[m]
  }

  /** A cursor chain that comes back to its first request at `j` is periodic from there. */
  lemma ChainPeriodic(pages: Request -> Reading, cursor: Option<Cursor>, o: Outcome, j: int)
    requires Chained(pages, cursor, o) && 0 < j < |o.requests| && o.requests[j] == o.requests[0]
    ensures Periodic(o.requests, j)
  {
    forall n, m | 0 <= n < |o.requests| && 0 <= m <= n && m == n - j
      ensures o.requests[n] == o.requests[m]
    {
      ChainRepeats(pages, cursor, o, j, n);
    }
  }

  /** From the first repetition of the first request on, the gathered ids stay
      those gathered before it. */
  lemma {:induction false} IdsStable(idsOf: Request -> set<NodeId>, requests: seq<Request>, j: int, k: int)
    requires 0 < j <= k <= |requests| && Periodic(requests, j)
    ensures IdsUpTo(idsOf, requests, k) == IdsUpTo(idsOf, requests, j)
    decreases k
  {
    if k > j {
      IdsStable(idsOf, requests, j, k - 1);
      assert requests[k - 1] == requests[k - 1 - j];
      PageIdsGathered(idsOf, requests, k - 1 - j, k - 1);
    }
  }

  /** The restart adds no new id for the rest of the run: once a run from the
      first page sends a request without a cursor again, its final table has
      exactly the ids stored before that request. */
  lemma CrawlRestartKeepsKeys(pages: Request -> Reading, target: int, total: int, rows: Table, j: int)
    ensures var o := Crawl(pages, target, total, None, rows);
      0 < j < |o.requests| && o.requests[j].cursor == None ==>
        o.rows.Keys == UpsertAll(rows, Fetched(pages, o.requests[..j])).Keys
  {
    var o := Crawl(pages, target, total, None, rows);
    if 0 < j < |o.requests| && o.requests[j].cursor == None {
      CrawlRequestChain(pages, target, total, None, rows);
      CrawlAccounting(pages, target, total, None, rows);
      assert o.requests[j] == o.requests[0];
      ChainPeriodic(pages, None, o, j);
      IdsStable(PageIds(pages), o.requests, j, |o.requests|);
      FetchedIdsPrefix(pages, o.requests, |o.requests|);
      FetchedIdsPrefix(pages, o.requests, j);
      assert o.requests[..|o.requests|] == o.requests;
      UpsertAllKeys(rows, Fetched(pages, o.requests));
      UpsertAllKeys(rows, Fetched(pages, o.requests[..j]));
    }
  }

  /** `crawl_repos`: the loop over pages, upserting through `store`, and the
      closing of the pool once the loop is left normally. An exception while
      reading a response ends the run early and leaves the pool open. */
  method CrawlRepos(store: RepositoryStore, provider: Request -> Response, target: int)
    returns (status: Status, total: int, requests: seq<Request>, progress: seq<int>)
    requires !store.closed
    modifies store
    ensures Outcome(status, total, store.rows, requests, progress) == Crawl(Reader(provider), target, 0, None, old(store.rows))
    ensures store.closed <==> status == Completed
    ensures target <= 0 ==> requests == [] && total == 0 && store.rows == old(store.rows)
  {
    ghost var pages := Reader(provider);
    ghost var run := Crawl(pages, target, 0, None, store.rows);
    total := 0;
    var cursor: Option<Cursor> := None;
    requests, progress := [], [];
    status := Completed;
    assert Resumed([], [], run) == run by {
      assert [] + run.requests == run.requests && [] + run.progress == run.progress;
    }
    while total < target
      invariant !store.closed
      invariant run == Resumed(requests, progress, Crawl(pages, target, total, cursor, store.rows))
      decreases target - total
    {
      var request := Request(BatchSize, cursor);
      var response := provider(request);
      assert pages(request) == Read(response);
      var page := PageEdges(response);
      if page.Err? {
        FailedStep(pages, target, total, cursor, store.rows, requests, progress, page.error);
        requests := requests + [request];
        status := Crashed(page.error);
        return;
      }
      if page.value == [] {
        EmptyStep(pages, target, total, cursor, store.rows, requests, progress);
        requests := requests + [request];
        break;
      }
      var edges := page.value;
      ghost var rows, before, sent, printed := store.rows, total, requests, progress;
      ghost var from := cursor;
      var repos := Records(edges);
      store.ExecuteMany(repos);
      total := total + |repos|;
      var hasNext := HasNextPage(response);
      requests := requests + [request];
      if hasNext.Err? {
        UnreadableStep(pages, target, before, cursor, rows, sent, progress, edges, hasNext.error);
        status := Crashed(hasNext.error);
        return;
      }
      cursor := NextCursor(edges, hasNext.value);
      if total % ProgressInterval == 0 {
        progress := progress + [total];
      }
      NextStep(pages, target, before, from, rows, sent, printed, edges, hasNext.value,
               total, cursor, store.rows, requests, progress);
    }
    if total >= target {
      ResumedDone(requests, progress, Crawl(pages, target, total, cursor, store.rows));
    }
    store.Close();
  }

  /** The outcome of a run that had already sent `requests` and printed
      `progress` before reaching the state that `rest` runs from. */
  function Resumed(requests: seq<Request>, progress: seq<int>, rest: Outcome): Outcome
  {
    rest.(requests := requests + rest.requests, progress := progress + rest.progress)
  }

  /** A loop turn that goes on, seen from the whole run: the state after it is
      the state the run continues from. */
  lemma NextStep(pages: Request -> Reading, target: int, total: int, cursor: Option<Cursor>, rows: Table,
                 requests: seq<Request>, progress: seq<int>, edges: seq<Edge>, hasNext: bool,
                 total': int, cursor': Option<Cursor>, rows': Table, requests': seq<Request>, progress': seq<int>)
    requires total < target
    requires pages(Request(BatchSize, cursor)) == Page(edges, Ok(hasNext)) && edges != []
    requires total' == total + |edges| && cursor' == NextCursor(edges, hasNext) && rows' == UpsertAll(rows, Records(edges))
    requires requests' == requests + [Request(BatchSize, cursor)] && progress' == progress + Report(total')
    ensures Resumed(requests, progress, Crawl(pages, target, total, cursor, rows))
         == Resumed(requests', progress', Crawl(pages, target, total', cursor', rows'))
  {
    var request := Request(BatchSize, cursor);
    var rest := Crawl(pages, target, total', cursor', rows');
    var report := Report(total');
    assert Steps(pages, total, cursor, rows, total', cursor', rows');
    CrawlStep(pages, target, total, cursor, rows, total', cursor', rows');
    ResumedStep(requests, progress, request, report, rest);
  }

  lemma ResumedStep(requests: seq<Request>, progress: seq<int>, request: Request, report: seq<int>, rest: Outcome)
    ensures Resumed(requests, progress, rest.(requests := [request] + rest.requests, progress := report + rest.progress))
         == Resumed(requests + [request], progress + report, rest)
  {
    assert requests + ([request] + rest.requests) == (requests + [request]) + rest.requests;
    assert progress + (report + rest.progress) == (progress + report) + rest.progress;
  }

  /** The last loop turn, seen from the whole run. */
  lemma LastStep(pages: Request -> Reading, target: int, total: int, cursor: Option<Cursor>, rows: Table,
                 requests: seq<Request>, progress: seq<int>)
    requires total < target && !Continues(pages(Request(BatchSize, cursor)))
    ensures var request := Request(BatchSize, cursor);
      var last := LastPage(request, pages(request), total, rows);
      Resumed(requests, progress, Crawl(pages, target, total, cursor, rows))
        == last.(requests := requests + [request], progress := progress)
  {
    CrawlLast(pages, target, total, cursor, rows);
    assert progress + [] == progress;
  }

  /** A loop turn whose edges cannot be read ends the run. */
  lemma FailedStep(pages: Request -> Reading, target: int, total: int, cursor: Option<Cursor>, rows: Table,
                   requests: seq<Request>, progress: seq<int>, fault: Fault)
    requires total < target && pages(Request(BatchSize, cursor)) == Failed(fault)
    ensures Resumed(requests, progress, Crawl(pages, target, total, cursor, rows))
         == Outcome(Crashed(fault), total, rows, requests + [Request(BatchSize, cursor)], progress)
  {
    LastStep(pages, target, total, cursor, rows, requests, progress);
  }

  /** A loop turn on a page without edges leaves the loop. */
  lemma EmptyStep(pages: Request -> Reading, target: int, total: int, cursor: Option<Cursor>, rows: Table,
                  requests: seq<Request>, progress: seq<int>)
    requires total < target && pages(Request(BatchSize, cursor)).Page? && pages(Request(BatchSize, cursor)).edges == []
    ensures Resumed(requests, progress, Crawl(pages, target, total, cursor, rows))
         == Outcome(Completed, total, rows, requests + [Request(BatchSize, cursor)], progress)
  {
    LastStep(pages, target, total, cursor, rows, requests, progress);
  }

  /** A loop turn whose `hasNextPage` cannot be read ends the run after the
      page was stored and counted. */
  lemma UnreadableStep(pages: Request -> Reading, target: int, total: int, cursor: Option<Cursor>, rows: Table,
                       requests: seq<Request>, progress: seq<int>, edges: seq<Edge>, fault: Fault)
    requires total < target && pages(Request(BatchSize, cursor)) == Page(edges, Err(fault)) && edges != []
    ensures Resumed(requests, progress, Crawl(pages, target, total, cursor, rows))
         == Outcome(Crashed(fault), total + |edges|, UpsertAll(rows, Records(edges)), requests + [Request(BatchSize, cursor)], progress)
  {
    LastStep(pages, target, total, cursor, rows, requests, progress);
  }

  /** The loop left because the total reached the target. */
  lemma ResumedDone(requests: seq<Request>, progress: seq<int>, done: Outcome)
    requires done.requests == [] && done.progress == []
    ensures Resumed(requests, progress, done) == done.(requests := requests, progress := progress)
  {
    assert requests + [] == requests;
    assert progress + [] == progress;
  }
}
