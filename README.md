# Sitemap crawler — a verified model

This project models the core of a small Go sitemap crawler (`main.go`). Given a
root sitemap URL, the crawler fetches it and repairs unescaped ampersands
(`sanitizeXML`). It then flattens the sitemap into page URLs
(`extractURLsFromXML`). That step follows sitemap indexes recursively, child by
child, and skips the children that fail. Each page URL then goes to a worker. The
worker fetches the page and, when the response is HTML, extracts the title, the
meta description and the canonical link (`parseHTML`).

Modules, one per component:

- `Text` (text.dfy): the Go library pieces the crawler calls. These are
  `bytes.ReplaceAll` (leftmost, non-overlapping), `strings.Contains`,
  `strings.HasSuffix` and `strings.TrimSpace`.
- `Sanitize` (sanitize.dfy): the two replace-all passes. They are proved equal to a
  one-pass reference that escapes exactly the `&` not already starting `&amp;`.
  Idempotence follows, and so does "unchanged exactly when every `&` already
  starts `&amp;`".
- `Transport` (transport.dfy): `makeRequest` reduced to a lookup in a map from
  URL to server response. It keeps the `.gz` suffix test that selects
  decompression; decompression itself is a given function.
- `Sitemap` (sitemap.dfy): the resolver. `Resolve` is a specification function.
  `ExtractURLs` is the imperative loop that appends, with `continue` on failed
  children, and it is proved equal to `Resolve`.
- `Html` (html.dfy): the parsed document as a `Node` tree. `Walk` is the
  imperative recursive walk that overwrites the three captured fields. It is
  proved equal to a visit of the pre-order node sequence, where each field keeps
  the value of the last matching element.
- `Crawler` (crawler.dfy): one worker draining the job list, and the root
  sequence of `crawlSiteMap`.

The HTML extractor keeps the value of the last matching `<title>`, `<meta>` and
`<link>` element: later matches overwrite earlier ones, so the last match wins.
The title is the trimmed data of the title element's first child, not the
element's whole text content.

## Model

| member | source | states |
|---|---|---|
| `Sanitize.SanitizeXML` | main.go:98-102 | The two global passes (`&`→`&amp;`, then `&amp;amp;`→`&amp;`) equal one left-to-right pass. That pass keeps an `&amp;` already present, escapes every other `&`, and copies every other byte. |
| `Text.ReplaceAll` | main.go:99-100 | A replace-all of a pattern that does not occur returns the input unchanged. A replacement of the same length as the pattern keeps the length. |
| `Text.ReplaceAllMatch` | main.go:99-100 | An occurrence of the pattern at the front is replaced, and the scan resumes right after it (non-overlapping). |
| `Text.ReplaceAllSkips` | main.go:99-100 | A prefix holding no first element of the pattern is copied unchanged, so the leftmost occurrence is the first one replaced. |
| `Sanitize.TwoPassesAreEscapeBare` | main.go:98-102 | By induction over the input: the `&`→`&amp;` pass followed by the `&amp;amp;`→`&amp;` pass is the one-pass escape of bare ampersands. |
| `Sanitize.SanitizeEscapes` | main.go:98-102 | In the sanitized output every `&` is immediately followed by `amp;`. |
| `Sanitize.SanitizeFixpoint` | main.go:98-102 | Sanitizing leaves the input unchanged if and only if every `&` in it already starts `&amp;`. |
| `Sanitize.SanitizeIdempotent` | main.go:98-102 | Sanitizing twice gives the same bytes as sanitizing once. |
| `Sanitize.SanitizeWithoutAmpersand` | main.go:98-102 | Input without any `&` passes through unchanged. |
| `Sanitize.SanitizeBareAmpersand` | main.go:98-102 | The one-byte input `&` becomes `&amp;`. |
| `Sanitize.SanitizeKeepsEscaped` | main.go:98-102 | An already escaped `&amp;` stays `&amp;`, and `&amp;amp;` stays `&amp;amp;`. |
| `Transport.IsGzipURL` | main.go:78 | The decompression test holds exactly when the URL is some string followed by `.gz`. |
| `Transport.Fetch` | main.go:55-96 | A transport error comes exactly from a URL the server does not answer. A known `.gz` URL gives a decompression error exactly when its payload does not decompress, and only a `.gz` URL can give one. A successful `.gz` fetch returns the decompressed payload as the body. A URL without the `.gz` suffix returns the server's response unchanged. A successful fetch keeps the server's content type and status. |
| `Transport.GzipTransparent` | main.go:77-95 | A `.gz` URL whose payload decompresses to the body of a plain URL (same type and status) fetches exactly what the plain URL fetches. |
| `Sitemap.Resolve` | main.go:104-142 | A urlset decode with an entry gives exactly its `loc` list. The unsupported-format error comes back if and only if neither decode has an entry. Running out of fuel happens only on an index. What an index resolves to is proved in `Sitemap.ResolveChildrenIsConcat` (the in-order concatenation of its children's URLs), and `Sitemap.ExtractURLs` with `Sitemap.ExtractChildren` is the loop proved equal to it. |
| `Sitemap.FollowChild` | main.go:123-130 | Following a child gives nothing exactly when its fetch fails. |
| `Sitemap.ExtractURLs` | main.go:104-142 | The imperative resolver (the urlset loop, then the index loop) returns exactly the specified resolution. |
| `Sitemap.ExtractChildren` | main.go:116-138 | The index loop (fetch, sanitize, recursive call, `continue` on failure, append) returns exactly the specified resolution of the children. |
| `Sitemap.ResolveChildren` | main.go:116-138 | Resolving an index's children never yields the unsupported-format error; it succeeds or runs out of fuel. |
| `Sitemap.UrlSetWins` | main.go:107-114 | A urlset decode with at least one entry returns exactly those `loc` strings in order. Replacing the index decoder changes nothing, so urlset wins ties. |
| `Sitemap.ResolveChildrenIsConcat` | main.go:119-138 | When no child runs out of fuel, an index resolves to the in-order concatenation of each child's URLs. A child whose fetch or resolution fails adds nothing. |
| `Sitemap.ResolveChildrenExhausted` | main.go:119-138 | If any child runs out of fuel, so does the whole index, whatever its other children give. |
| `Sitemap.ResolveChildrenAppend` | main.go:119-137 | Resolving children `a + b` is resolving `a` and `b` separately and joining the URL lists in order. |
| `Sitemap.FailedChildSkipped` | main.go:123-134 | Removing a child whose fetch or resolution fails, at any position, does not change the result: it contributes nothing and does not stop later siblings. |
| `Sitemap.AllChildrenFail` | main.go:116-138 | An index whose children all fail still succeeds, with an empty URL list. |
| `Sitemap.ResolveFuelMonotone` | main.go:104-142 | A resolution that did not run out of fuel is unchanged by more fuel. The depth bound only cuts the recursion off and never alters a result. |
| `Text.TrimSpace` | main.go:159 | The trimmed title is a contiguous slice of the text with only white space cut off on either side. It has no leading or trailing white space, and it is empty exactly when the text is all white space. |
| `Text.TrimSpacePadded` | main.go:159 | Trimming white space around a word that neither starts nor ends with white space gives back exactly that word. |
| `Html.TitleOf` | main.go:157-160 | A node sets the title exactly when it is a `title` element with a child. The value is trimmed and is a slice of the child's data with only white space cut off. |
| `Html.DescriptionOf` | main.go:161-173 | A node sets the description exactly when it is a `meta` element with a `name="description"` attribute. The value is the last `content` value, or "" when there is none. |
| `Html.CanonicalOf` | main.go:174-183 | A node sets the canonical URL exactly when it is a `link` element with a `rel="canonical"` attribute and an `href`. The value is the last `href` value. |
| `Html.Visit` | main.go:155-185 | A non-element changes nothing. A field changes only to the value its element rule gives for that node, and a node whose rule gives a value sets the field to it. A changed title is trimmed. Over a sequence of nodes, `Html.VisitAllFields` gives each field the value of the last node that sets it; `Html.VisitElement` is the switch proved equal to it. |
| `Html.WalkNode` | main.go:154-190 | A walk either keeps the title it started with or leaves a trimmed one. |
| `Html.ExtractMetadata` | main.go:144-193 | The extracted title is always trimmed, including the "" of a failed parse. |
| `Html.LastValueIsLast` | main.go:167-169 | The value taken from an attribute list is that of an attribute with the key after which no attribute has that key (the last one). |
| `Html.ScanMeta` | main.go:161-170 | The attribute scan of `<meta>` finds `name="description"` exactly when such an attribute exists, and yields the last `content` value, or "" when there is none. |
| `Html.ScanHref` | main.go:177-181 | The inner `href` loop leaves `canonical` holding the last `href` value, or unchanged when there is none. |
| `Html.ScanLink` | main.go:174-183 | A `<link>` sets `canonical` to its last `href` exactly when some attribute is `rel="canonical"` and an `href` exists; otherwise `canonical` is unchanged. |
| `Html.VisitAllFields` | main.go:154-190 | Visiting a sequence of nodes sets each field to the value of the last node whose rule sets it, or keeps its initial value; the three fields are independent. |
| `Html.VisitElement` | main.go:155-185 | Only element nodes change anything. A `<title>` with a child sets the title to the child's trimmed data. A `<meta name="description">` sets the description to its last `content` (or ""). A `<link rel="canonical">` with an `href` sets the canonical URL to its last `href`. Every other field is kept. |
| `Html.Walk` | main.go:154-190 | The imperative walk (visit the node, then walk the children left to right) computes the specified walk. |
| `Html.WalkAllChildren` | main.go:187-189 | The loop over the children walks each child in order, left to right, and returns exactly the specified walk of all children. |
| `Html.WalkIsPreorder` | main.go:154-190 | The walk equals visiting the tree's nodes in pre-order (a node before its children, children left to right). |
| `Html.LatestNoMatch` | main.go:154-190 | Along a visit, a field keeps its initial value if no node matches. |
| `Html.LatestIsLastMatch` | main.go:154-190 | When some node matches, a field holds the value of a matching node after which no node matches: the last match wins. |
| `Html.ExtractIsLastMatch` | main.go:151-193 | Each extracted field is the value of the last matching element in pre-order, starting from "". |
| `Html.NoMatchesNoMetadata` | main.go:151-193 | A document with no matching element yields three empty strings. |
| `Html.ParseHTML` | main.go:144-193 | A parse error gives ("", "", ""); otherwise the result is the walk of the document from three empty strings. |
| `Html.TitleVisit` | main.go:157-160 | A `<title>` whose only child is a text leaf sets the title to that text, trimmed, and keeps the other fields. |
| `Html.OtherElementVisit` | main.go:155-185 | An element whose tag is not `title`, `meta` or `link` changes no field. |
| `Html.ExamplePageMetadata` | main.go:154-183 | A page with `<title> Example </title>`, a description meta and a canonical link yields ("Example", "desc", "https://x/y"). |
| `Text.ContainsIffOccurs` | main.go:209 | The Content-Type test holds exactly when "text/html" occurs at some position of the header value. |
| `Crawler.IsHTML` | main.go:209 | The HTML test holds exactly when "text/html" occurs at some position of the Content-Type value. |
| `Crawler.ProcessJob` | main.go:203-222 | A job gives no result exactly when its fetch fails. A result carries the job's URL and the fetched status, and its title is trimmed. |
| `Crawler.Crawl` | main.go:200-225 | The worker never emits more results than it received jobs. |
| `Crawler.JobOutcome` | main.go:203-222 | A job gives no result exactly when its fetch fails. Otherwise the result has the job's URL and status. For a non-HTML type the metadata is empty; for HTML it is what the extractor returns for the body. |
| `Crawler.Worker` | main.go:200-225 | The worker loop over the job list emits exactly the specified results: one per successfully fetched job, in job order. |
| `Crawler.CrawlCount` | main.go:200-225 | Results never outnumber jobs, and there is one per job exactly when every fetch succeeds. |
| `Crawler.OriginsIncrease` | main.go:200-225 | The jobs the results come from are valid job positions, in strictly increasing order. |
| `Crawler.OriginsCover` | main.go:200-225 | Every job whose fetch succeeds is among the jobs the results come from. |
| `Crawler.ResultsFromOrigins` | main.go:200-225 | There is one origin job per result, and each result is the outcome of processing its origin job. |
| `Crawler.ResultsInJobOrder` | main.go:200-225 | Each result comes from a distinct job, in strictly increasing job order. Every job whose fetch succeeded has a result. |
| `Crawler.CrawlSiteMapSpec` | main.go:233-264 | The run aborts with the fetch error exactly when the root fetch fails. A crawled run has no more results than discovered URLs. |
| `Crawler.CrawlSiteMap` | main.go:233-264 | The root sequence (fetch, sanitize, resolve, then queue every URL to the worker) returns the specified outcome. |
| `Crawler.RootOutcome` | main.go:233-242 | A failed root fetch aborts the run with that error. A root neither decode accepts aborts with the unsupported-format error. A crawled run has results only for its discovered URLs, at most one each. |
| `Crawler.IndexWithUnreachableChild` | main.go:116-138 | A root index with a three-URL urlset child and an unreachable child discovers exactly those three URLs and yields at most three results. |

## Left out

- Network I/O in `makeRequest` (request construction, headers, the 30-second client
  timeout, reading the body) is a map from URL to response; a missing URL is a
  transport error. Every fetch of the same URL therefore returns the same
  response, which a real server need not do.
- gzip decompression and the two library parsers (`xml.Unmarshal`, `html.Parse`)
  are given functions. A document that fails to decode is `None`.
- `randomUserAgent` is left out because it is clock-seeded randomness.
- Goroutines, channels, the `sync.WaitGroup`, the pool of five workers and the
  order in which channels close are left out. One worker drains the whole job
  list, so results come in job order; with five workers the order is not
  determined.
- The politeness delays (`time.Sleep`), all logging, the printing of results and
  `main`'s argument handling are left out, because none of them changes a result.
- `Sitemap.Resolve`: the source recursion has no depth limit and would not end on
  a cyclic index. The model carries a fuel count of index levels and a separate
  `Exhausted` outcome. That outcome propagates rather than being skipped, and is
  not source behaviour. `ResolveFuelMonotone` shows the fuel never changes a
  result that completes.
- `Text.ReplaceAll` requires a non-empty pattern. Go's empty-pattern case is not
  modelled; `sanitizeXML` never uses it.
- HTML node namespaces, `DataAtom` and attribute namespaces are omitted because
  the walk never reads them.
- Go's `TrimSpace` handling of invalid UTF-8 is not modelled: strings here are
  sequences of code points.
