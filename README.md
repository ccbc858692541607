# Link-harvesting PDF pipeline, modelled in Dafny

The repository is a small Flask service. It takes an uploaded PDF and extracts
every hyperlink in it, both clickable link annotations and plain-text URLs. It
downloads the links that answer with a PDF and merges those PDFs, in order,
into one document. This project models the decision logic of that pipeline,
all of it in `utils/extractor.py`:

- `url_pattern.dfy` (module `UrlPattern`): the pattern `https?://[^\s<>\)\]]+`
  and its `findall` scan. `IsUrl` states the pattern's language on its own.
  `MatchAt` is the match attempt of a backtracking engine at one position.
  `ScanFrom`/`FindAll` are the leftmost, non-overlapping scan. By its
  definition, each result of `FindAll` is the slice of the text under one
  span of the scan, so it is a contiguous substring.
- `link_extraction.dfy` (module `LinkExtraction`): `extract_links_from_pdf`.
  A loop over pages updates a `set<string>` accumulator with the annotation
  URIs and the text matches. At the end, `list(links)` turns the set into a
  list in an order the model leaves open.
- `fetching.dfy` (module `Fetching`): `download_pdfs`. The HTTP client is a
  parameter `fetch: string -> Outcome`. An outcome is `Raised`, or a
  `Response` with a status, an optional Content-Type and a body. The loop keeps
  a response only if its status is exactly 200 and its Content-Type, read as
  `""` when missing, starts with `application/pdf`.
- `merging.dfy` (module `Merging`): `merge_pdfs`. Page concatenation in list
  order. The merge aborts at the first asset the PDF library cannot read.
- `upload_route.dfy` (module `UploadRoute`): the branch of `upload_pdf`.
  The outcome is `no_links`/200, `download_failed`/400, or `success` with the
  merged pages, the download location and the extracted list. If the upload
  or a retained download cannot be parsed, the exception escapes the route.
  The framework then answers 500, and the model writes this as `InternalError`.
- `pdf_model.dfy` (module `PdfModel`) and `wrappers.dfy` (module `Wrappers`):
  the abstract document, with a page holding its annotation URIs and its text,
  plus `Option` and `Result`.

The PDF libraries, the network and the file system are outside the model.
A parsed PDF is a `Body`: either `Pdf(pages)` or `Malformed`. A page is the
list of its annotations' `uri` entries (each `Option<string>`) with its text.
The network is the `fetch` function. The fresh merged-file identifier is the
parameter `mergedId`.

Three behaviours of the code are worth stating plainly, and the model keeps them:
- The code keeps a download only for status 200 exactly, not for any 2xx status.
- `merge_pdfs` accepts an empty list and gives a zero-page document. The route never calls it that way.
- A malformed upload or asset is not reported as a structured error. The
  exception raises out of the route.

## Model

| member | source | states |
|---|---|---|
| `UrlPattern.IsSpace` | utils/extractor.py:25 | definition with no contract of its own: the ASCII characters of `\s`: tab, line feed, vertical tab, form feed, carriage return, 0x1C-0x1F and space |
| `UrlPattern.IsTerminator` | utils/extractor.py:25 | definition with no contract of its own: the characters the class `[^\s<>\)\]]` excludes: whitespace, `<`, `>`, `)` and `]` |
| `UrlPattern.IsUrl` | utils/extractor.py:25 | definition with no contract of its own: the language of `https?://[^\s<>\)\]]+`: `http://` or `https://` followed by one or more non-excluded characters |
| `UrlPattern.SchemeLength` | utils/extractor.py:25 | the scheme `https?://` found at a position is 0, 7 or 8 characters long and fits in the text |
| `UrlPattern.UrlRun` | utils/extractor.py:25 | the run found is all URL characters, and it stops at the end of the text or at whitespace, `<`, `>`, `)` or `]` |
| `UrlPattern.MatchAt` | utils/extractor.py:25 | a successful match attempt at i ends after i and within the text |
| `UrlPattern.ScanFrom` | utils/extractor.py:37 | the spans of the `findall` scan lie in the text, are non-empty, and come in order without overlapping |
| `UrlPattern.UrlAtShape` | utils/extractor.py:25 | a URL starting at i begins with the scheme found at i and continues with URL characters only |
| `UrlPattern.MatchAtIsUrl` | utils/extractor.py:25 | a successful match attempt matches a string of the pattern's language |
| `UrlPattern.MatchAtIsLongest` | utils/extractor.py:25 | the match is greedy: no longer substring from the same start is in the language |
| `UrlPattern.MatchAtFailsIffNoUrl` | utils/extractor.py:25 | a match attempt fails exactly when no substring starting there is in the language |
| `UrlPattern.ScanFromSpansMatch` | utils/extractor.py:37 | every span of the scan is the engine's match at that span's start |
| `UrlPattern.ScanFromCoversEveryMatch` | utils/extractor.py:37 | leftmost scan: every position where a match attempt would succeed lies inside a found match |
| `UrlPattern.ScanFromCovers` | utils/extractor.py:37 | a position where a match attempt succeeds is inside some match of every scan that starts at or before it |
| `UrlPattern.ScanSkips` | utils/extractor.py:37 | positions where every match attempt fails do not change the scan |
| `UrlPattern.NoMatchWithoutH` | utils/extractor.py:25 | no match starts at a character other than `h` |
| `UrlPattern.FindAll` | utils/extractor.py:37 | definition with no contract of its own: the slices of the text under the spans of the scan from 0, in order |
| `UrlPattern.FindAllAreUrls` | utils/extractor.py:25 | every result starts with `http://` or `https://`, has a character after the scheme, and has no whitespace, `<`, `>`, `)` or `]` after it |
| `UrlPattern.MatchAtStopsAtTerminator` | utils/extractor.py:25 | a successful match ends at the end of the text or just before whitespace, `<`, `>`, `)` or `]` |
| `UrlPattern.FindAllAreMaximal` | utils/extractor.py:25 | after each match comes the end of the text or an excluded character, and no longer URL starts at the same place |
| `UrlPattern.FindAllIsLeftmost` | utils/extractor.py:37 | matches are in order and non-overlapping, and no URL of the language starts outside every match |
| `UrlPattern.FindAllClosingParenExample` | utils/extractor.py:25 | `"see http://a.com/x) now"` yields exactly `["http://a.com/x"]` |
| `LinkExtraction.IsLinkUri` | utils/extractor.py:29-31 | definition with no contract of its own: `if uri:` passes a URI that is present and non-empty |
| `LinkExtraction.AnnotationLinks` | utils/extractor.py:29-33 | definition with no contract of its own: the set of present, non-empty URIs among a page's annotations |
| `LinkExtraction.TextLinks` | utils/extractor.py:36-40 | definition with no contract of its own: the set of `findall` matches of a page's text |
| `LinkExtraction.PageLinks` | utils/extractor.py:28-40 | definition with no contract of its own: what one page adds to the set: its annotation links and its text links |
| `LinkExtraction.DocumentLinks` | utils/extractor.py:23-40 | definition with no contract of its own: the link set after visiting the pages in order, starting from the empty set |
| `LinkExtraction.ListOf` | utils/extractor.py:43 | `list(links)` lists every element of the set exactly once, in some order |
| `LinkExtraction.ExtractLinksFromPdf` | utils/extractor.py:22-43 | the page loop returns, without repetitions, exactly the links of `DocumentLinks` |
| `LinkExtraction.AddAnnotationLinks` | utils/extractor.py:29-33 | the annotation loop adds to the set exactly the page's present, non-empty URIs |
| `LinkExtraction.AddTextLinks` | utils/extractor.py:36-40 | the text loop adds to the set exactly the page's `findall` matches |
| `LinkExtraction.AnnotationLinksStep` | utils/extractor.py:29-33 | one more annotation adds its URI exactly when the URI is present and non-empty |
| `LinkExtraction.DocumentLinksAreUnionOfPages` | utils/extractor.py:27-40 | a URL is extracted exactly when some page contributes it |
| `LinkExtraction.PageLinksMembership` | utils/extractor.py:29-40 | a page contributes exactly its non-empty annotation URIs and its text matches; absent or empty URIs contribute nothing |
| `LinkExtraction.ExtractedLinksAreUrisOrUrls` | utils/extractor.py:29-40 | every extracted link is a non-empty annotation URI of some page or a URL of the pattern's language |
| `LinkExtraction.NoLinksIffNothingOnAnyPage` | utils/extractor.py:23-43 | the result is empty exactly when no page has a non-empty annotation URI or a text match |
| `LinkExtraction.DistinctListsEachOnce` | utils/extractor.py:43 | in the returned list, a URL found both as an annotation and as text occurs exactly once |
| `Fetching.HeaderOrEmpty` | utils/extractor.py:51 | definition with no contract of its own: the Content-Type header, or `""` when it is missing |
| `Fetching.IsRetained` | utils/extractor.py:51 | definition with no contract of its own: no exception, status exactly 200, and a Content-Type starting with `application/pdf` |
| `Fetching.Kept` | utils/extractor.py:46-62 | definition with no contract of its own: the links whose outcome passes the retention rule, each with its response body, in link order |
| `Fetching.DownloadPdfs` | utils/extractor.py:45-62 | the loop returns the retained assets of the links, in link order |
| `Fetching.KeptIndicesIncrease` | utils/extractor.py:47-56 | the retained positions are valid link indices, in strictly increasing order |
| `Fetching.KeptAtIndices` | utils/extractor.py:51-56 | the k-th retained asset is the k-th retained link with its response body |
| `Fetching.KeptIndicesComplete` | utils/extractor.py:47-61 | every link that passes the retention rule is retained; a failed one does not stop the loop |
| `Fetching.KeptIsOrderedSelection` | utils/extractor.py:46-62 | the retained list is the ordered selection of links that raised nothing, answered 200 and carried an `application/pdf` Content-Type |
| `Fetching.KeptNoLonger` | utils/extractor.py:46-62 | at most one asset per input link |
| `Fetching.KeptMembership` | utils/extractor.py:48-61 | a URL is retained exactly when it is one of the links and its outcome passes the rule |
| `Fetching.KeptEmptyIff` | utils/extractor.py:51-62 | nothing is retained exactly when no link passes the rule |
| `Fetching.RetentionIsStrict` | utils/extractor.py:51 | 204, a missing Content-Type, `text/html` and a raised request are all skipped; `application/pdf; charset=binary` with 200 is kept |
| `Merging.MergedPages` | utils/extractor.py:64-68 | definition with no contract of its own: the pages of the assets, one asset after the other |
| `Merging.MergeSpec` | utils/extractor.py:64-68 | definition with no contract of its own: the merged pages when every asset is readable, otherwise the failure at the first unreadable one |
| `Merging.FirstMalformed` | utils/extractor.py:66-67 | the first asset the merger cannot append is malformed, and every asset before it is readable |
| `Merging.MergePdfs` | utils/extractor.py:64-69 | the append loop gives the concatenated pages, or aborts at the first unreadable asset |
| `Merging.MergedPagesAppend` | utils/extractor.py:66-67 | merging a concatenated list gives the concatenation of the two merges |
| `Merging.MergedPagesInOrder` | utils/extractor.py:66-67 | asset k's pages come after those of the assets before it and before those after it |
| `Merging.MergedPagesCount` | utils/extractor.py:66-68 | the merged document has as many pages as its inputs together |
| `Merging.MergeFailsIffMalformed` | utils/extractor.py:66-67 | the merge fails exactly when some asset is unreadable, and it names the first one |
| `Merging.MergeTwoThenOne` | utils/extractor.py:66-68 | a two-page and a one-page asset merge into three pages, the first asset's pages first |
| `UploadRoute.Reply.Code` | utils/extractor.py:84-98 | definition with no contract of its own: the status code of each reply: 200 for `no_links`, 400 for `download_failed`, 200 for `success`, 500 for an escaped exception |
| `UploadRoute.Reply.Status` | utils/extractor.py:84-95 | definition with no contract of its own: the `status` field: `no_links`, `download_failed` or `success` |
| `UploadRoute.Reply.Message` | utils/extractor.py:84-88 | definition with no contract of its own: the `message` field: `No links found` or `No valid PDFs` |
| `UploadRoute.MergedFileName` | utils/extractor.py:90 | definition with no contract of its own: the merged file name `merged_<id>.pdf` for the fresh identifier |
| `UploadRoute.Route` | utils/extractor.py:83-98 | definition with no contract of its own: no links gives `no_links`; nothing retained gives `download_failed`; otherwise the merge result gives `success` or an internal error |
| `UploadRoute.UploadPdf` | utils/extractor.py:80-98 | the route's reply is `Route` of an extracted listing of exactly the document's links; fetch sees that list only when it is non-empty; merge sees only a non-empty retained list |
| `UploadRoute.RouteNoLinks` | utils/extractor.py:83-84 | `no_links` with code 200 exactly when the list is empty, whatever the network would answer |
| `UploadRoute.RouteDownloadFailed` | utils/extractor.py:86-88 | `download_failed` with code 400 exactly when there are links and none passes the retention rule |
| `UploadRoute.KeptAllWellFormedIff` | utils/extractor.py:86-92 | every retained download is readable exactly when no retained link's body is malformed |
| `UploadRoute.RouteMergeAborts` | utils/extractor.py:90-92 | the route ends in an internal error (500) exactly when a retained body is unreadable |
| `UploadRoute.RouteSuccess` | utils/extractor.py:90-98 | `success` exactly when something is retained and all of it is readable; the reply carries the extracted list unchanged, `/download/merged_<id>.pdf`, and the retained pages in list order; merge received a non-empty list |
| `UploadRoute.RouteOnePdfOneNotFound` | utils/extractor.py:83-98 | one two-page PDF link and one 404 link give `success`, a two-page merge and both links |

## Left out

- The Flask app, CORS, the request and response objects, `send_file` and the `/download/<filename>` route (lines 1-2, 10-11, 100-105) are framework I/O. So is a request without a `file` field.
- Folder creation, saving the upload, writing downloads and `os.path.join` paths are file-system plumbing. A retained asset carries its URL and body, not a file path. A failed file write inside the `try` is swallowed, which is the same as `Raised`.
- `uuid.uuid4()` names are random: the merged name's identifier is the parameter `mergedId`, and download names are dropped.
- The internals of PyMuPDF and PyPDF2 are foreign libraries. Their results are inputs: a parsed `Body`, page texts and annotation URIs. `merger.write`/`close` and their failures are not modelled.
- `requests.get` and its timeout are modelled as the function `fetch`. So a URL requested twice gets the same outcome. That cannot happen with extracted links, which are distinct.
- All `print` logging.
- `UrlPattern.IsSpace`: covers only the ASCII characters of Python's `\s`. The non-ASCII Unicode whitespace characters that `\s` also matches (U+0085, U+00A0, U+2000-U+200A and others) count as URL characters in the model, because the full Unicode whitespace table was left out.
- The order of `list(links)` is unspecified in the source. `LinkExtraction.ListOf` picks any order, and every property is stated over the set or for any such listing.
- `UploadRoute.UploadPdf`: the `Trace` of which stages were reached is recorded by the method beside each call to `DownloadPdfs` and `MergePdfs`; it is not captured from the calls themselves, so a request log kept by the network is not modelled.
- Concurrency: the service handles each request on its own. The model covers one request.
