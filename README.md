# Repository crawler: the crawl loop and its upsert

A model of `crawl_repos`, the loop that pages through the provider's
repository search (query `stars:>0`, 100 results per request) and writes each
page into the `repositories` table with
`INSERT ... ON CONFLICT (id) DO UPDATE SET star_count = EXCLUDED.star_count`.

- `wrappers.dfy` (`Wrappers`): `Option` and `Result`.
- `graphql.dfy` (`GraphQL`): the response shape the loop reads. Each JSON
  member is `Absent`, `Null` or `Present`. This matters because the code
  reads the edges with `dict.get` and defaults (a missing member means an
  empty page) but reads `hasNextPage` with plain subscripts (a missing member
  raises). The exceptions are modelled as `Fault` values. `Read` turns a
  response into the `Reading` the loop acts on: a failure, or a page's edges
  with the outcome of reading `hasNextPage`.
- `repositories.dfy` (`Repositories`): records, rows and the table
  (`map<NodeId, Row>`, keyed by `id` as in `setup_postgres.py`). `Upsert` and
  `UpsertAll` specify one statement and `executemany`. Their contracts are
  lemmas (`UpsertEffect`, `UpsertAllAt`, `UpsertAllKeys`) rather than
  postconditions, which characterise the table left under every id. `RepositoryStore` is the
  database behind the pool: a class whose `rows` field is updated in place by
  `ExecuteUpsert` and `ExecuteMany` and which `Close` marks closed.
- `crawler.dfy` (`Crawler`): `Crawl` is the run as a function of the
  pages read (`Reader(provider)`), the target and the loop state (`total`,
  `cursor`, table).
  `CrawlRepos` is the `while` loop itself. It updates `total` and `cursor`
  step by step, upserts through the store, and is proved equal to `Crawl`.
  The lemmas about `Crawl` give the stop condition, the accounting, the
  overshoot bound, the cursor chain, the progress lines and the restart
  behaviour.

The provider is a deterministic function `Request -> Response`. The loop
terminates without a fuel bound: every turn either leaves the loop or adds at
least one edge to `total`, so `target - total` decreases.

Behaviour of the code worth knowing:
- A last page (`hasNextPage` false) does not end the run. The cursor goes back
  to `None`, so the next request fetches the first page again and `total`
  counts those edges again (`SinglePageRestart`). When the provider answers a
  repeated request with the same page, everything fetched after the restart
  adds no new id to the table (`CrawlRestartKeepsKeys`).
- A conflicting row takes only the new `star_count`. `full_name` and
  `created_at` are kept.
- There is no quota tracking, retry, backoff or rate-limit handling.
- The node `id` the provider returns is a GraphQL ID, a string, while the
  table's key column is `BIGINT`. As written, every non-empty page would
  therefore be rejected by the database at the first parameter, so the
  statement never stores a page. The model keys the table by the id text and describes the
  upsert the statement would perform if the key column accepted it.
- `executemany` runs the page's statements in order; the model applies them
  as a left fold. Statement failures are not modelled, so neither is the
  all-or-nothing behaviour `executemany` has when one of them fails.
- A JSON null `hasNextPage` reads as false and ends the cursor chain. A
  missing `hasNextPage`, or a missing or null `pageInfo`, raises.
- The pool is closed only when the loop ends normally. An exception while
  reading a response leaves it open (`CrawlRepos` ensures
  `store.closed <==> status == Completed`).

## Model

| member | source | states |
|---|---|---|
| `GraphQL.PageEdges` | src/crawler.py:43-45 | Reading the edges fails exactly when `data`, or `search` inside it, is JSON null. A non-empty page can only come from a present `data.search.edges` list, and a present list is read as it is. Missing members and a null edges list read as an empty page. |
| `GraphQL.HasNextPage` | src/crawler.py:56 | `hasNextPage` can be read exactly when `data`, `search` and `pageInfo` are present objects and `hasNextPage` is not missing. The value read is true exactly when the member is `true`, so a JSON null counts as false. |
| `GraphQL.NonEmptyPageFailsOnlyOnPageInfo` | src/crawler.py:43-56 | After a non-empty page, reading `hasNextPage` can only fail on a missing or null `pageInfo` or a missing `hasNextPage`. |
| `GraphQL.Read` | src/crawler.py:43-56 | A response either fails at the edges, with the edges' error, or yields a page whose edges are the ones the loop reads and whose `hasNextPage` reading is the one the cursor update performs. |
| `Repositories.NormalizeUtc` | src/crawler.py:47 | The text handed to the time parser contains no `Z` and is never shorter than the provider's text. |
| `Repositories.NormalizeUtcKeepsText` | src/crawler.py:47 | A timestamp without `Z` is passed through unchanged. |
| `Repositories.NormalizeUtcIdempotent` | src/crawler.py:47 | Replacing `Z` twice gives the same text as replacing it once. |
| `Repositories.NormalizeUtcAppend` | src/crawler.py:47 | The replacement works piece by piece: replacing in a concatenation equals concatenating the replaced pieces. |
| `Repositories.UtcDesignatorReplaced` | src/crawler.py:47 | A provider timestamp ending in the UTC designator `Z` becomes the same date-time with the offset `+00:00`. |
| `Repositories.UpsertEffect` | src/crawler.py:51-53 | One statement stores the record's id and sets its star count. A stored row keeps its full name and creation time; a new row takes the record's. Every other row is unchanged. |
| `Repositories.IdsAppend` | src/crawler.py:46-54 | The ids of two pages together are the ids of each page. |
| `Repositories.UpsertAllAt` | src/crawler.py:50-54 | For every id after a page: an id the page does not carry is untouched, whether present or absent. An id it carries is present. Its star count is that of the last record with that id. Its full name and creation time are the old row's if the id was stored, and otherwise the first such record's. |
| `Repositories.UpsertAllKeys` | src/crawler.py:50-54 | The stored ids after a page are exactly the old ids plus the page's ids. |
| `Repositories.UpsertAllIdempotent` | src/crawler.py:50-54 | Executing the same page twice leaves the same table as executing it once. |
| `Repositories.UpsertAllAppend` | src/crawler.py:40-55 | Upserting two pages in turn equals upserting their concatenation. |
| `Repositories.RepositoryStore.constructor` | setup_postgres.py:8-15 | A pool over the table as `CREATE TABLE IF NOT EXISTS` leaves it: its existing contents, open. |
| `Repositories.RepositoryStore.ExecuteUpsert` | src/crawler.py:51-53 | One statement: the record's id is stored and every other row is unchanged. The new table is `Upsert` of the old one. |
| `Repositories.RepositoryStore.ExecuteMany` | src/crawler.py:49-54 | The table becomes `UpsertAll` of the old one, one record after the other. Its ids gain exactly the page's ids. |
| `Repositories.RepositoryStore.Close` | src/crawler.py:60 | Closing the pool keeps the table's contents. |
| `Crawler.ToRecord` | src/crawler.py:46-47 | A record carries the node's id, `nameWithOwner` and `stargazerCount`. Its creation time is the node's `createdAt` with every `Z` replaced by `+00:00`: it contains no `Z`, and a creation time without `Z` is kept as it is. |
| `Crawler.Records` | src/crawler.py:46-48 | A page yields one record per edge, in edge order: the i-th record is that of the i-th edge. |
| `Crawler.RecordsIds` | src/crawler.py:46-48 | The records of a page carry exactly the ids of its nodes. |
| `Crawler.NextCursor` | src/crawler.py:56 | After a page with edges, the next cursor is present exactly when `hasNextPage` is true, and it is then the last edge's cursor. |
| `Crawler.Report` | src/crawler.py:57-58 | A progress line is printed exactly when the running total is a multiple of 1000, and it shows that total. |
| `Crawler.PageRecords` | src/crawler.py:43-48 | A readable page contributes the records of its edges. An unreadable one contributes none. |
| `Crawler.LastPage` | src/crawler.py:43-56 | The turn that leaves the loop sends one request and prints nothing. An unreadable page crashes with the table and total unchanged. An empty page completes with them unchanged. A non-empty page whose `hasNextPage` cannot be read is stored and counted, then crashes. |
| `Crawler.Crawl` | src/crawler.py:40-58 | The run sends a request exactly when `total` is below the target, and `total` never decreases. |
| `Crawler.FetchedAppend` | src/crawler.py:40-55 | The records fetched by two runs of requests are those of each, in order. |
| `Crawler.CrawlEnds` | src/crawler.py:40-45 | A completed run has `total >= target` or ended on a page without edges. A crashed run crashed on its last response, reading either its edges or its `hasNextPage`. |
| `Crawler.CrawlAccounting` | src/crawler.py:46-55 | The final `total` is the start plus the number of records fetched. The final table is the start table with all fetched records upserted in order. An empty page adds nothing to either. |
| `Crawler.CrawlOvershoot` | src/crawler.py:40-55 | A run starting below the target sends a request. It ends with `total` below the target plus the size of the last page. |
| `Crawler.CrawlRequestChain` | src/crawler.py:18-56 | Every request asks for `first = 100`. The first request carries the starting cursor. Each later request carries the cursor left by the previous page: the last edge's cursor if `hasNextPage`, otherwise none. |
| `Crawler.CrawlProgress` | src/crawler.py:55-58 | Every printed total is a multiple of 1000, above the starting total and at most the final one. The printed totals strictly increase. |
| `Crawler.CrawlProgressExact` | src/crawler.py:55-58 | A total is printed if and only if it is a running total after a page the loop went on from and a multiple of 1000. |
| `Crawler.SinglePageRestart` | src/crawler.py:40-56 | Suppose the first page has edges and `hasNextPage` false. Then every request is the first-page request, the run completes with `total` equal to the start plus requests times page size, `total` lands in `[target, target + page size)`, and the table holds that page once. |
| `Crawler.RepeatedPageIds` | src/crawler.py:41-54 | The ids of a page requested a second time are among the ids fetched before it. |
| `Crawler.RepeatedRequestAddsNoIds` | src/crawler.py:41-54 | Storing a page requested a second time adds no id to the table. |
| `Crawler.CrawlRestartAddsNoIds` | src/crawler.py:40-56 | Once a run from the first page sends a request without a cursor again, that re-fetched first page adds no new id to the table. |
| `Crawler.ChainRepeats` | src/crawler.py:41-56 | Once the cursor chain comes back to its first request at position `j`, it repeats itself: every later request is the one `j` places before it. |
| `Crawler.CrawlRestartKeepsKeys` | src/crawler.py:40-56 | Once a run from the first page sends a request without a cursor again, the final table has exactly the ids stored before that request: nothing fetched from there to the end of the run adds an id. |
| `Crawler.CrawlRepos` | src/crawler.py:15-61 | The loop's status, `total`, requests, progress lines and table equal the run `Crawl` from `total = 0` and no cursor. The pool is closed exactly when the run completes. With `target <= 0` nothing is requested and the table is unchanged. |

## Left out

- HTTP transport in `graphql_query` (session, bearer header, JSON decoding): the provider is a parameter, a deterministic function from request to decoded response.
- The query text is constant and is not represented. A request carries only its variables, `first` and `cursor`.
- Search results that change between requests (the ranking can shift): the provider is a function, so a repeated request gets the same page. `RepeatedRequestAddsNoIds`, `CrawlRestartAddsNoIds` and `CrawlRestartKeepsKeys` hold under that assumption.
- The response's `errors` member and `rateLimit` data: the loop never reads them.
- Edges whose `node` lacks a requested field, or edge items that are null: the model's `Edge` always has the four fields and a cursor.
- `datetime.fromisoformat`: the stored creation time is the text after the `Z` to `+00:00` replacement; parsing it, and its failure, are not modelled.
- Database failures: the rejection of the string node id by the `BIGINT` key, a `full_name` UNIQUE violation or a star count beyond `INTEGER`. The model's table accepts every record, and the all-or-nothing rollback of `executemany` on such a failure is not modelled.
- The pool's `acquire` and connection lifecycle: only the table contents and whether `close()` was called are modelled.
- The two `print` lines are outputs: progress is the sequence of printed totals, and the final message is implied by a `Completed` status.
- asyncio: the loop is sequential and is modelled as such.
- `export_data`, the click CLI and the environment lookups (src/crawler.py:63-96), and `setup_postgres.py` apart from fixing `id` as the key and keeping an existing table: file, process and DDL I/O.
