# GitHub repository scraper: verified model of the scraping core

The scraper takes a GitHub user or organisation URL, walks the paginated repository
listing of that profile, and classifies every listed repository as `Original` or `Fork`.
It then fetches each repository's page and builds a four-column table:
Project Name, Type, URL, README Content.

This project models the three functions of `app.py` that do this work.

- `get_all_repo_info` (module `Listing`, file `listing.dfy`) is modelled twice:
  - as the recursive specification `CrawlFrom`;
  - as the imperative method `GetAllRepoInfo`, with its inner item loop `CollectPage`.

  The method is proved equal to the specification. It also returns the address of
  every listing request it makes, in order.
- `scrape_readme` (module `Readme`) is the pure choice between three cells:
  - the README text;
  - `"README not found."`;
  - `"Could not fetch README (request failed)."`.
- `run_scraper` (module `Scraper`) is the method `RunScraper`, with its row loop
  `AssembleTable`. Both are proved against the specification functions `Scrape` and
  `TableOf`.

The network and the HTML parser are replaced by input data.

- A request is a `Fetch.Response`: it either raised (`RequestError`) or returned a status
  and a parsed document. `raise_for_status()` rejects the statuses 400 to 599.
- A listing page keeps only what the crawler reads from it:
  - for each `li` of `div#user-repositories-list`, its `h3 > a` link and that link's `href`;
  - the `.string` of each span of the item (`None` when the span has no single string);
  - the first `a[rel=next]` of the page and its `href`.
- The listing responses are a finite sequence indexed by request number. `app.py` has no
  guard against a cyclic `rel=next` link. So termination comes from the input: callers
  pass a `Complete` sequence, one whose last response does not send the crawl on. That
  last response is a failed request, an empty first page, a page whose items raise, or a
  page without a `rel=next` anchor carrying an `href`.
- The README responses are a sequence indexed by README request number.

The helpers in module `Text` model two Python string operations:
- the substring test `pat in s`;
- `s.split(sep)`, proved lossless against `sep.join`, with its last piece characterised.

The model follows the code on three points where it might be read otherwise:
- The collected list is not deduplicated. A repository listed twice gives two rows.
- A heading link without `href` makes `repo_link['href']` raise `KeyError`. Nothing in
  `app.py` catches it, so it escapes `get_all_repo_info` and `run_scraper`. The model
  carries it as `Failure(MissingHref)`.
- An empty *later* listing page does not stop the crawl. Only an empty first page does.

## Model

| member | source | states |
|---|---|---|
| Text.Contains | app.py:52 | Python's `pat in s`; its meaning is stated by `Text.ContainsIffOccurs` |
| Text.ContainsIffOccurs | app.py:52 | The left-to-right substring scan used for `'Forked from' in text` is true exactly when the pattern occurs at some offset of the text |
| Fetch.IsErrorStatus | app.py:27 | The statuses 400 to 599 for which `raise_for_status()` raises; used by `Fetch.Succeeded` |
| Fetch.Succeeded | app.py:26-27 | `requests.get` followed by `raise_for_status()` completes: a response was received and its status is not 400 to 599. Its consequences are stated by `Readme.ScrapeReadme` and `Listing.FetchFailureKeepsEarlierPages` |
| Text.Split | app.py:98 | `str.split` yields at least one piece, and no piece contains the separator |
| Text.JoinSplit | app.py:98 | Splitting loses nothing: joining the pieces with the separator gives back the original string |
| Text.AfterLast | app.py:98 | The text after the last separator is a separator-free suffix of the string that is either the whole string or preceded by the separator |
| Text.LastPiece | app.py:98 | The last piece of `split` (`[-1]`) is exactly the text after the last separator |
| Listing.Resolve | app.py:48 | `urljoin` onto `https://github.com` never gives an empty address (what it gives for each kind of reference is stated by `Listing.ResolvePlain`) |
| Listing.ResolvePlain | app.py:48 | On a plain reference (printable, no brackets, no empty query, fragment or parameter marker) the result is `urljoin`'s. A reference with a scheme other than `https`, or an `https://host` address, is kept. `//host` takes the `https:` scheme. A query or fragment reference, and a site-absolute path without dot segments, is appended to `https://github.com`. A relative path without dot or empty segments is placed under the root |
| Listing.StripQueryAndFragment | app.py:19 | On a profile URL on which `urljoin` does no clean-up, the part it keeps is the URL's longest prefix without `?` or `#`, cut exactly at the first of them |
| Listing.ListingUrl | app.py:19 | The first listing address is never empty, so the `while current_page_url` loop always makes at least one request |
| Listing.IsForkMarker | app.py:52 | The `string=` filter `text and 'Forked from' in text`; what it selects is stated by `Listing.FindForkSpan` and `Listing.ForkIffMarker` |
| Listing.FindForkSpan | app.py:52 | `item.find('span', string=...)` finds the first span whose string passes the fork filter, and finds none exactly when no span passes it |
| Listing.Classify | app.py:52-53 | The `Fork`/`Original` choice of an item; its meaning is stated by `Listing.ForkIffMarker` |
| Listing.ForkIffMarker | app.py:52-53 | An item is classified `Fork` exactly when some span of it has a string containing "Forked from"; otherwise it is `Original` |
| Listing.Linked | app.py:43-45 | Every item kept has an `h3 > a` link, and no more items are kept than the page has (which items, and in what order, is stated by `Listing.LinkedMembers`, `Listing.LinkedFirst` and `Listing.LinkedKeepsOrder`) |
| Listing.LinkedMembers | app.py:43-45 | The kept items are exactly the page's items with an `h3 > a` link: every kept item is on the page and linked, and every linked item is kept |
| Listing.LinkedFirst | app.py:43-45 | The first item of a page is kept exactly when it has a heading link, and the rest are filtered the same way after it |
| Listing.LinkedKeepsOrder | app.py:43-45 | Filtering keeps page order: the kept items of two consecutive runs of items are those of the first run followed by those of the second |
| Listing.PageEntries | app.py:41-55 | The entries one page contributes, or the `KeyError`; its meaning is stated by `Listing.PageEntriesRaise` and `Listing.PageEntriesSkipUnlinked` |
| Listing.PageEntriesRaise | app.py:41-55 | A page raises exactly when some item's heading link has no `href` |
| Listing.PageEntriesSkipUnlinked | app.py:41-55 | A page that does not raise yields one entry per linked item, in page order, with the resolved `href` and the item's classification |
| Listing.CollectPage | app.py:41-55 | The item loop appends exactly the page's entries, in order, to those already collected, or raises on a link without `href` |
| Listing.RequestUrls | app.py:19-60 | The list of request addresses has one address per request |
| Listing.CrawlFrom | app.py:23-64 | From any page on, the crawl makes at least one request and never more requests than there are responses |
| Listing.NextHref | app.py:58-59 | The `href` of the `rel=next` anchor, when the anchor exists and `'href' in next_button.attrs`; its use is stated by `Listing.FollowedFrom` |
| Listing.FollowedFrom | app.py:58-60 | The address the loop moves on to after a response: the resolved `href` of the page's `rel=next` anchor, if the page was fetched and has one. Its role is stated by `Listing.CrawlFollowsNext` and `Listing.ListingRequestTrail` |
| Listing.CrawlFollowsNext | app.py:58-64 | Every listing request of a crawl except the last follows a `rel=next` link of the page before it |
| Listing.ListingRequestTrail | app.py:19-60 | The first request goes to the profile's `?tab=repositories` view; each later request goes to the resolved `href` of the previous page's `rel=next` anchor |
| Listing.CrawlThrough | app.py:23-64 | While pages advance, the result is their entries in page order, then within-page order, followed by the rest of the crawl; one request is made per page |
| Listing.FetchFailureKeepsEarlierPages | app.py:25-30 | A failed request for page j ends pagination with exactly the entries of the earlier pages (none if j is the first page), after j + 1 requests |
| Listing.LastPageEndsCrawl | app.py:58-66 | A fetched page without a usable `rel=next` link is the last one: the result is the entries of all pages up to it, in order |
| Listing.EmptyFirstPageStops | app.py:37-39 | An empty first page returns `[]` at once, with no further request |
| Listing.EmptyLaterPageContinues | app.py:37-64 | An empty page after the first adds nothing and does not stop pagination: the crawl goes on to the next page |
| Listing.NextLinkDecidesPagination | app.py:58-64 | On a page that does not end the crawl otherwise, another page is requested exactly when a `rel=next` anchor with an `href` is present |
| Listing.GetAllRepoInfo | app.py:13-66 | The pagination loop returns the crawl's outcome (entries or the `KeyError`), and makes exactly the crawl's requests, at the addresses of the request trail |
| Readme.ScrapeReadme | app.py:68-78 | The README cell is the article text if the page was fetched and has one. It is "README not found." if the fetched page has none. It is "Could not fetch README (request failed)." if the request raised or the status was an error |
| Readme.StatusOfScrapeReadme | app.py:76-78 | A property of the table's README column, which `app.py` itself never reads back: the two sentinels are distinct, so unless the article text is itself a sentinel, a reader of the cell can tell which of the three branches produced it |
| Scraper.ProjectName | app.py:98 | `url.split('/')[-1]` is a `/`-free suffix of the URL that is either the whole URL or preceded by `/`, i.e. the text after the last `/` |
| Scraper.ProjectNameAfterSlash | app.py:98 | The name of `prefix + "/" + name` is `name` for any `/`-free name; in particular a URL ending in `/` has an empty name |
| Scraper.RowFor | app.py:96-109 | The row of one repository; its meaning is stated by `Scraper.RowsDescribeEntries` |
| Scraper.TableOf | app.py:85-119 | The table of the discovered repositories; its meaning is stated by `Scraper.RowsDescribeEntries` and its construction by `Scraper.AssembleTable` |
| Scraper.RowsDescribeEntries | app.py:95-119 | One row per entry, in entry order. Type and URL are copied unchanged, the name is the last path segment, and the README cell comes from that entry's README request. A non-empty table has the columns Project Name, Type, URL, README Content, and Type is "Original" or "Fork" |
| Scraper.AssembleTable | app.py:85-119 | The row loop builds exactly the table of the entries and requests each entry's README once, in order. No entries give the empty table and no README request |
| Scraper.Scrape | app.py:81-121 | The result of a whole run; `Scraper.RunScraper` is proved to compute it, and `Scraper.TwoPageProfile` and `Scraper.EmptyFirstPageGivesEmptyTable` evaluate it |
| Scraper.RunScraper | app.py:81-121 | The run's result is the crawl's table, or the crawl's exception. It makes the crawl's listing requests, then one README request per discovered repository, in discovery order |
| Scraper.EmptyFirstPageGivesEmptyTable | app.py:85-87 | An empty first listing page gives the empty table and no README request |
| Scraper.ExampleUrls | app.py:48 | Example: site-absolute repository links resolve under `https://github.com` |
| Scraper.ExampleNames | app.py:98 | Example: the project names of the example URLs are their last path segments |
| Scraper.FirstPageEntries | app.py:41-55 | Example: a page with two linked original repositories yields both entries, in page order |
| Scraper.SecondPageEntries | app.py:41-55 | Example: an item without a heading link is skipped, and an item with a "Forked from" span is a `Fork` |
| Scraper.SecondPageCrawl | app.py:58-64 | Example: a page without a `rel=next` anchor ends the crawl after one request |
| Scraper.TwoPageCrawl | app.py:13-66 | Example: two pages linked by `rel=next` take two requests and give the entries of both, in order |
| Scraper.TwoPageProfile | app.py:81-121 | Example, end to end: three rows in discovery order. A 404 and a raised request both give the "request failed" cell and change nothing else in their row |

## Left out

- Streamlit: the page layout, the form, the info, warning and error messages, the progress bar and the status text. These are presentation. The progress fraction is floating point.
- The network. `requests.get`, its 10-second timeout and redirects are not modelled; each request's outcome is an input. A request that raises before a response exists (connection error, timeout, ...) is `RequestError`. The `HTTPError` of `raise_for_status()` is a `Received` response with a status from 400 to 599, which `Succeeded` rejects.
- BeautifulSoup parsing and the CSS selectors. The parsed page is a datatype holding only the fields the code reads. `get_text(separator=' ', strip=True)` is taken as already-extracted opaque text.
- Listing.Resolve: agrees with `urljoin` only on plain references, as `Listing.ResolvePlain` states. It does not do `urljoin`'s clean-up of other references. `.` and `..` segments are kept. Empty segments of a relative path are kept (`a//b`). Leading blanks and control characters are kept, and tab, CR and LF are not removed. The `?`, `#` or `;` of an empty query, fragment or parameter list is kept (`/x?`, `?`, `https://h/p#`). A scheme in upper case is not lower-cased. An `https:` reference without a host is not resolved as relative. `urljoin`'s `ValueError` on a malformed bracketed host is not modelled.
- Listing.ListingUrl: keeps the profile URL up to its first `?` or `#`. `urljoin` also lower-cases the profile URL's scheme (`HTTPS://github.com/u`). It strips leading blanks and removes tab and newline characters. A profile URL whose scheme `urljoin` does not resolve against (`mailto:u`) gives `?tab=repositories` alone. An empty `;` parameter list is dropped (`https://github.com/u;` gives `https://github.com/u?tab=repositories`). A host-less path after a scheme that uses a host gets `//` inserted (`https:/u` gives `https:///u?tab=repositories`). The model does none of these. They change only the address of the first listing request, since responses are indexed by request number.
- `time.sleep` pauses between requests. They only affect timing.
- The `st.cache_data` memoisation of `run_scraper`. Its keying and storage are not visible in the code.
- pandas. `pd.DataFrame` is a `Table` value: the column labels plus the rows. CSV and Excel serialisation and the download buttons are not modelled.
- Termination of pagination. The listing responses must be `Complete`, because the code has no guard against a cyclic `rel=next` link.
- Exceptions other than `RequestException` and the `KeyError` of a link without `href`.
