/** The provider's repository-search response, as far as `crawl_repos` reads it,
    and the two lookups the crawl performs on it (src/crawler.py:43 and :56). */
module GraphQL {
  import opened Wrappers

  /** An opaque pagination token; the crawl only ever passes it back unmodified. */
  type Cursor = string

  /** A member of a JSON object: missing, present with `null`, or present with a value.
      Python's `dict.get(k, default)` tells the first two apart: a missing key yields
      the default, an explicit `null` yields `None`. */
  datatype Field<+T> = Absent | Null | Present(value: T)

  /** `edges[].node` with the four fields the query asks for. */
  datatype Node = Node(id: string, nameWithOwner: string, stargazerCount: int, createdAt: string)

  datatype Edge = Edge(node: Node, cursor: Cursor)

  /** `pageInfo`; the crawl reads `hasNextPage` only, `endCursor` is fetched but unused. */
  datatype PageInfo = PageInfo(endCursor: Option<Cursor>, hasNextPage: Field<bool>)

  datatype Search = Search(edges: Field<seq<Edge>>, pageInfo: Field<PageInfo>)

  datatype Data = Data(search: Field<Search>)

  /** The decoded JSON body of one response; only its `data` member is read. */
  datatype Response = Response(data: Field<Data>)

  /** The variables sent with the fixed search query: page size and cursor. */
  datatype Request = Request(first: int, cursor: Option<Cursor>)

  /** The Python exceptions that reading a response can raise: `KeyError` for a
      subscript on a missing key, and `AttributeError`/`TypeError` for a lookup
      on a JSON `null`. */
  datatype Fault = MissingKey(key: string) | NullValue(key: string)

  /** `result.get('data', {}).get('search', {}).get('edges', [])` followed by the
      truth test `not edges`: a missing member is an empty page, a `null` edges
      list is falsy and so also an empty page, while a `null` data or search
      object makes the next `.get` raise. */
  function PageEdges(response: Response): (r: Result<seq<Edge>, Fault>)
    ensures r.Err? <==> response.data.Null? || (response.data.Present? && response.data.value.search.Null?)
    ensures r.Ok? && r.value != [] ==>
              response.data.Present? && response.data.value.search.Present? &&
              response.data.value.search.value.edges == Present(r.value)
    ensures response.data.Present? && response.data.value.search.Present? &&
            response.data.value.search.value.edges.Present? ==>
              r == Ok(response.data.value.search.value.edges.value)
  {
    match response.data
    case Absent => Ok([])
    case Null => Err(NullValue("data"))
    case Present(data) =>
      match data.search
      case Absent => Ok([])
      case Null => Err(NullValue("search"))
      case Present(search) =>
        match search.edges
        case Present(edges) => Ok(edges)
        case _ => Ok([])
  }

  /** `result['data']['search']['pageInfo']['hasNextPage']`: plain subscripts, so
      a missing member raises `KeyError` and a `null` object raises `TypeError`.
      A `null` `hasNextPage` is read as `None`, which the cursor update treats as
      false. */
  function HasNextPage(response: Response): (r: Result<bool, Fault>)
    ensures r.Ok? <==>
              response.data.Present? && response.data.value.search.Present? &&
              response.data.value.search.value.pageInfo.Present? &&
              !response.data.value.search.value.pageInfo.value.hasNextPage.Absent?
    ensures r.Ok? ==> r.value == (response.data.value.search.value.pageInfo.value.hasNextPage == Present(true))
  {
    match response.data
    case Absent => Err(MissingKey("data"))
    case Null => Err(NullValue("data"))
    case Present(data) =>
      match data.search
      case Absent => Err(MissingKey("search"))
      case Null => Err(NullValue("search"))
      case Present(search) =>
        match search.pageInfo
        case Absent => Err(MissingKey("pageInfo"))
        case Null => Err(NullValue("pageInfo"))
        case Present(info) =>
          match info.hasNextPage
          case Absent => Err(MissingKey("hasNextPage"))
          case Null => Ok(false)
          case Present(hasNext) => Ok(hasNext)
  }

  /** Once a page has edges, reading `hasNextPage` can only fail on `pageInfo`
      or `hasNextPage` itself: `data` and `search` were already found to be
      objects. */
  lemma NonEmptyPageFailsOnlyOnPageInfo(response: Response)
    requires PageEdges(response).Ok? && PageEdges(response).value != []
    ensures HasNextPage(response).Err? ==>
              HasNextPage(response).error in {MissingKey("pageInfo"), NullValue("pageInfo"), MissingKey("hasNextPage")}
  {
  }

  /** What the loop takes from one response: either the exception raised while
      reading the edges, or the edges together with the outcome of reading
      `hasNextPage` (consulted only when the edges are non-empty). */
  datatype Reading = Failed(fault: Fault) | Page(edges: seq<Edge>, hasNext: Result<bool, Fault>)

  /** The two lookups on one response. */
  function Read(response: Response): (r: Reading)
    ensures r.Failed? <==> PageEdges(response).Err?
    ensures r.Failed? ==> PageEdges(response) == Err(r.fault)
    ensures r.Page? ==> PageEdges(response) == Ok(r.edges) && r.hasNext == HasNextPage(response)
  {
    match PageEdges(response)
    case Err(fault) => Failed(fault)
    case Ok(edges) => Page(edges, HasNextPage(response))
  }
}
