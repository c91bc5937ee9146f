/**
 * `get_all_repo_info` (app.py): walk a profile's paginated repository listing and
 * collect one entry (absolute URL, Original or Fork) per linked list item.
 *
 * The network is replaced by input: `pages[k]` is the outcome of the k-th listing
 * request. The source has no guard against a cyclic "next" link, so termination
 * rests on the input: a run is `Complete` when its last response ends pagination.
 * Parsed pages keep only what the crawler reads from them: per list item, its
 * `h3 > a` heading link and the `.string` of each of its spans; and the page's
 * `rel=next` anchor.
 */
module Listing {
  import opened Wrappers
  import opened Text
  import opened Fetch

  const BaseUrl: string := "https://github.com"
  const ListingQuery: string := "?tab=repositories"
  const ForkMarker: string := "Forked from"

  /** The item's `h3 > a` element, if any, and the value of its `href` attribute, if any. */
  datatype HeadingLink = NoHeadingLink | HeadingLink(href: Option<string>)

  /** One `li` of `div#user-repositories-list`: its heading link and the `.string` of every span in it. */
  datatype Item = Item(link: HeadingLink, spanStrings: seq<Option<string>>)

  /** The page's first `a[rel=next]`, if any, and its `href`, if any. */
  datatype NextAnchor = NoNextAnchor | NextAnchor(href: Option<string>)

  datatype ListingPage = ListingPage(items: seq<Item>, next: NextAnchor)

  datatype RepoType = Original | Fork {
    /** The value stored in the entry's `type` field. */
    function Label(): string {
      match this
      case Original => "Original"
      case Fork => "Fork"
    }
  }

  datatype Entry = Entry(url: string, kind: RepoType)

  /** The one exception the crawl lets escape: `repo_link['href']` on a link without `href` (KeyError). */
  datatype ListingError = MissingHref

  /** What a crawl produces (entries or the escaping exception) and how many listing requests it made. */
  datatype Crawl = Crawl(outcome: Result<seq<Entry>, ListingError>, requests: nat)

  /** A character allowed in a URL scheme after its first letter. */
  predicate IsSchemeChar(c: char) {
    'a' <= c <= 'z' || 'A' <= c <= 'Z' || '0' <= c <= '9' || c == '+' || c == '-' || c == '.'
  }

  /** `s` runs through scheme characters up to a ':'. */
  predicate SchemeCharsThenColon(s: string)
    decreases |s|
  {
    |s| > 0 && (s[0] == ':' || (IsSchemeChar(s[0]) && SchemeCharsThenColon(s[1..])))
  }

  /** The reference names its own scheme: a letter, then scheme characters, up to its first ':'. */
  predicate HasScheme(href: string) {
    |href| > 1 && ('a' <= href[0] <= 'z' || 'A' <= href[0] <= 'Z') && SchemeCharsThenColon(href[1..])
  }

  /** The reference's scheme is `https` in some letter case. */
  predicate NamesHttps(href: string) {
    |href| > 5 && href[5] == ':' && (href[0] == 'h' || href[0] == 'H') &&
    (href[1] == 't' || href[1] == 'T') && (href[2] == 't' || href[2] == 'T') &&
    (href[3] == 'p' || href[3] == 'P') && (href[4] == 's' || href[4] == 'S')
  }

  /**
   * A reference in the plain form the listing pages use, on which `urljoin` does no
   * clean-up: printable ASCII without blanks or brackets, and no empty query, fragment or
   * parameter list (every `?`, `#` and `;` is followed by something other than `?` or `#`).
   */
  predicate Plain(href: string) {
    (forall i :: 0 <= i < |href| ==> '!' <= href[i] <= '~' && href[i] != '[' && href[i] != ']') &&
    (forall i :: 0 <= i < |href| && (href[i] == '?' || href[i] == '#' || href[i] == ';') ==>
       i + 1 < |href| && href[i + 1] != '?' && href[i + 1] != '#')
  }

  /** No path segment of the reference is `.` or `..` (no segment starts with a dot). */
  predicate NoDotSegment(href: string) {
    (|href| > 0 ==> href[0] != '.') &&
    forall i :: 0 <= i < |href| - 1 && href[i] == '/' ==> href[i + 1] != '.'
  }

  /** The reference has no empty segment between two slashes. */
  predicate NoEmptySegment(href: string) {
    forall i :: 0 <= i < |href| - 1 && href[i] == '/' ==> href[i + 1] != '/'
  }

  /**
   * `urljoin("https://github.com", href)`: an empty reference gives the base, a reference
   * with its own scheme is kept, a network-path reference (`//host/...`) takes the base's
   * scheme, a path, query or fragment reference is appended to the base, and a relative
   * path is resolved against the base's empty path, i.e. placed under the root.
   */
  function Resolve(href: string): (url: string)
    ensures url != ""
  {
    if href == "" then BaseUrl
    else if HasScheme(href) then href
    else if |href| > 1 && href[0] == '/' && href[1] == '/' then "https:" + href
    else if href[0] == '/' || href[0] == '?' || href[0] == '#' then BaseUrl + href
    else BaseUrl + "/" + href
  }

  /**
   * On plain references `Resolve` gives `urljoin`'s result for each kind of reference; the
   * clean-up `urljoin` does on other references (dot segments, empty components, blanks)
   * is not modelled.
   */
  lemma ResolvePlain(href: string)
    requires Plain(href)
    ensures HasScheme(href) &&
      (!NamesHttps(href) || (|href| > 8 && href[..8] == "https://" && href[8] != '/' && href[8] != '?' && href[8] != '#'))
      ==> Resolve(href) == href
    ensures |href| > 2 && href[..2] == "//" && href[2] != '/' && href[2] != '?' && href[2] != '#'
      ==> Resolve(href) == "https:" + href
    ensures |href| > 0 && (href[0] == '?' || href[0] == '#') ==> Resolve(href) == BaseUrl + href
    ensures NoDotSegment(href) && |href| > 0 && href[0] == '/' && !(|href| > 1 && href[1] == '/')
      ==> Resolve(href) == BaseUrl + href
    ensures NoDotSegment(href) && NoEmptySegment(href) && !HasScheme(href) &&
      |href| > 0 && href[0] != '/' && href[0] != '?' && href[0] != '#'
      ==> Resolve(href) == BaseUrl + "/" + href
  {
  }

  /** The part of a URL before its query (`?`) or fragment (`#`). */
  function StripQueryAndFragment(url: string): (base: string)
    ensures |base| <= |url| && base == url[..|base|]
    ensures '?' !in base && '#' !in base
    ensures |base| < |url| ==> url[|base|] == '?' || url[|base|] == '#'
    decreases |url|
  {
    if url == [] || url[0] == '?' || url[0] == '#' then []
    else [url[0]] + StripQueryAndFragment(url[1..])
  }

  /** `urljoin(profile_url, "?tab=repositories")`: the profile's address with its query replaced. */
  function ListingUrl(profileUrl: string): (url: string)
    ensures url != ""
  {
    StripQueryAndFragment(profileUrl) + ListingQuery
  }

  /** The `string=` filter of the fork test: a span string that is non-empty and contains "Forked from". */
  predicate IsForkMarker(text: Option<string>) {
    text.Some? && text.value != "" && Contains(text.value, ForkMarker)
  }

  /** `item.find('span', string=...)`: the first span whose string passes the fork filter, if any. */
  function FindForkSpan(spans: seq<Option<string>>): (k: Option<nat>)
    ensures k.Some? ==> k.value < |spans| && IsForkMarker(spans[k.value])
    ensures k.Some? ==> forall j :: 0 <= j < k.value ==> !IsForkMarker(spans[j])
    ensures k.None? ==> forall j :: 0 <= j < |spans| ==> !IsForkMarker(spans[j])
    decreases |spans|
  {
    if spans == [] then None
    else if IsForkMarker(spans[0]) then Some(0)
    else
      match FindForkSpan(spans[1..])
      case None => None
      case Some(k) => Some(k + 1)
  }

  /** `"Fork" if fork_span else "Original"`. */
  function Classify(item: Item): RepoType {
    if FindForkSpan(item.spanStrings).Some? then Fork else Original
  }

  /** An item is a fork exactly when one of its span strings contains "Forked from". */
  lemma ForkIffMarker(item: Item)
    ensures Classify(item) == Fork <==>
      exists k: nat, i: nat :: k < |item.spanStrings| && item.spanStrings[k].Some? &&
        OccursAt(item.spanStrings[k].value, ForkMarker, i)
  {
    var spans := item.spanStrings;
    if Classify(item) == Fork {
      var k := FindForkSpan(spans).value;
      ContainsIffOccurs(spans[k].value, ForkMarker);
      var i: nat :| OccursAt(spans[k].value, ForkMarker, i);
      assert k < |spans| && spans[k].Some? && OccursAt(spans[k].value, ForkMarker, i);
    }
    if exists k: nat, i: nat :: k < |spans| && spans[k].Some? && OccursAt(spans[k].value, ForkMarker, i) {
      var k: nat, i: nat :| k < |spans| && spans[k].Some? && OccursAt(spans[k].value, ForkMarker, i);
      ContainsIffOccurs(spans[k].value, ForkMarker);
      assert IsForkMarker(spans[k]);
    }
  }

  /** Adds the entries already collected in front of an outcome; an exception stays an exception. */
  function Prepend(acc: seq<Entry>, r: Result<seq<Entry>, ListingError>): Result<seq<Entry>, ListingError> {
    match r
    case Success(es) => Success(acc + es)
    case Failure(e) => Failure(e)
  }

  /**
   * What the inner `for item in repo_list_items` loop contributes: items without a heading
   * link are skipped, every other item adds one entry in item order, and a heading link
   * without `href` raises.
   */
  function PageEntries(items: seq<Item>): Result<seq<Entry>, ListingError>
    decreases |items|
  {
    if items == [] then Success([])
    else
      match items[0].link
      case NoHeadingLink => PageEntries(items[1..])
      case HeadingLink(href) =>
        if href.None? then Failure(MissingHref)
        else Prepend([Entry(Resolve(href.value), Classify(items[0]))], PageEntries(items[1..]))
  }

  /** The items of a page that have a heading link, in page order. */
  function Linked(items: seq<Item>): (linked: seq<Item>)
    ensures forall j :: 0 <= j < |linked| ==> linked[j].link.HeadingLink?
    ensures |linked| <= |items|
    decreases |items|
  {
    if items == [] then []
    else if items[0].link.HeadingLink? then [items[0]] + Linked(items[1..])
    else Linked(items[1..])
  }

  /**
   * Exactly the linked items are kept: every kept item is an item of the page, and every
   * item with a heading link is kept.
   */
  lemma {:induction false} LinkedMembers(items: seq<Item>)
    ensures forall x :: x in Linked(items) ==> x in items && x.link.HeadingLink?
    ensures forall k :: 0 <= k < |items| && items[k].link.HeadingLink? ==> items[k] in Linked(items)
    decreases |items|
  {
    if items != [] {
      LinkedMembers(items[1..]);
      assert forall k :: 1 <= k < |items| ==> items[k] == items[1..][k - 1];
    }
  }

  /** The linked items of a non-empty run: the first item if it is linked, then the rest's. */
  lemma LinkedFirst(items: seq<Item>)
    requires items != []
    ensures Linked(items) == (if items[0].link.HeadingLink? then [items[0]] else []) + Linked(items[1..])
  {
    if !items[0].link.HeadingLink? {
      assert [] + Linked(items[1..]) == Linked(items[1..]);
    }
  }

  /**
   * Filtering keeps page order: the linked items of two consecutive runs of items are
   * those of the first run followed by those of the second. With `LinkedFirst` (a single
   * item is kept exactly when it has a heading link) this determines `Linked` entirely.
   */
  lemma {:induction false} LinkedKeepsOrder(a: seq<Item>, b: seq<Item>)
    ensures Linked(a + b) == Linked(a) + Linked(b)
    decreases |a|
  {
    if a != [] {
      var ab := a + b;
      var head := if a[0].link.HeadingLink? then [a[0]] else [];
      assert ab[0] == a[0] && ab[1..] == a[1..] + b;
      LinkedKeepsOrder(a[1..], b);
      LinkedFirst(ab);
      LinkedFirst(a);
      assert head + (Linked(a[1..]) + Linked(b)) == (head + Linked(a[1..])) + Linked(b);
    } else {
      assert a + b == b;
    }
  }

  /** A page raises exactly when some item has a heading link without `href`. */
  lemma {:induction false} PageEntriesRaise(items: seq<Item>)
    ensures PageEntries(items).Failure? <==>
      exists k :: 0 <= k < |items| && items[k].link == HeadingLink(None)
    decreases |items|
  {
    if items != [] {
      PageEntriesRaise(items[1..]);
      if exists k :: 0 <= k < |items[1..]| && items[1..][k].link == HeadingLink(None) {
        var k :| 0 <= k < |items[1..]| && items[1..][k].link == HeadingLink(None);
        assert items[k + 1].link == HeadingLink(None);
      }
      if exists k :: 0 <= k < |items| && items[k].link == HeadingLink(None) {
        var k :| 0 <= k < |items| && items[k].link == HeadingLink(None);
        if k > 0 {
          assert items[1..][k - 1].link == HeadingLink(None);
        }
      }
    }
  }

  /**
   * A page that does not raise gives exactly one entry per linked item, in order, with the
   * resolved `href` and the item's classification.
   */
  lemma {:induction false} PageEntriesSkipUnlinked(items: seq<Item>)
    ensures PageEntries(items).Success? ==>
      var es := PageEntries(items).value; var linked := Linked(items);
      |es| == |linked| &&
      forall j :: 0 <= j < |es| ==>
        linked[j].link.href.Some? && es[j] == Entry(Resolve(linked[j].link.href.value), Classify(linked[j]))
    decreases |items|
  {
    if items != [] && PageEntries(items).Success? {
      PageEntriesSkipUnlinked(items[1..]);
      LinkedFirst(items);
      if items[0].link.HeadingLink? {
        var rest := PageEntries(items[1..]).value;
        assert PageEntries(items).value == [Entry(Resolve(items[0].link.href.value), Classify(items[0]))] + rest;
      } else {
        assert [] + Linked(items[1..]) == Linked(items[1..]);
      }
    }
  }

  /** The `href` of a `rel=next` anchor, when the anchor exists and carries one. */
  function NextHref(a: NextAnchor): Option<string> {
    match a
    case NoNextAnchor => None
    case NextAnchor(href) => href
  }

  /** The address the crawler moves on to after this response, if it moves on. */
  function FollowedFrom(r: Response<ListingPage>): Option<string> {
    if Succeeded(r) && NextHref(r.doc.next).Some? then Some(Resolve(NextHref(r.doc.next).value))
    else None
  }

  /**
   * The address of listing request `m`: the profile's repository view for the first,
   * the resolved `rel=next` of the previous page for every later one.
   */
  function RequestUrl(profileUrl: string, pages: seq<Response<ListingPage>>, m: nat): string
    requires m <= |pages|
  {
    if m == 0 then ListingUrl(profileUrl)
    else
      match FollowedFrom(pages[m - 1])
      case Some(url) => url
      case None => ""
  }

  /** The addresses of the first `m` listing requests, in request order. */
  function RequestUrls(profileUrl: string, pages: seq<Response<ListingPage>>, m: nat): (urls: seq<string>)
    requires m <= |pages|
    ensures |urls| == m
  {
    if m == 0 then [] else RequestUrls(profileUrl, pages, m - 1) + [RequestUrl(profileUrl, pages, m - 1)]
  }

  /** Page `k` is fetched, contributes its entries and sends the crawl on to page `k + 1`. */
  predicate Advances(pages: seq<Response<ListingPage>>, k: nat)
    requires k < |pages|
  {
    Succeeded(pages[k]) && !(k == 0 && pages[k].doc.items == []) &&
    PageEntries(pages[k].doc.items).Success? && NextHref(pages[k].doc.next).Some?
  }

  /**
   * The responses cover the whole run: the last one does not send the crawl on. It is a
   * failed request, an empty first page, a page that raises, or a page without a usable
   * `rel=next` link.
   */
  predicate Complete(pages: seq<Response<ListingPage>>) {
    |pages| > 0 && !Advances(pages, |pages| - 1)
  }

  /**
   * The crawl from the `n`-th listing request on (`page_num == n + 1`): a failed request
   * ends it, an empty first page ends it with nothing, a raising item ends it with the
   * exception, and otherwise the page's entries are followed by the crawl of the next
   * page when there is a `rel=next` link with an `href`.
   */
  function CrawlFrom(pages: seq<Response<ListingPage>>, n: nat): (c: Crawl)
    requires Complete(pages) && n < |pages|
    ensures 1 <= c.requests <= |pages| - n
    decreases |pages| - n
  {
    var r := pages[n];
    if !Succeeded(r) then Crawl(Success([]), 1)
    else if r.doc.items == [] && n == 0 then Crawl(Success([]), 1)
    else
      match PageEntries(r.doc.items)
      case Failure(e) => Crawl(Failure(e), 1)
      case Success(es) =>
        if NextHref(r.doc.next).None? then Crawl(Success(es), 1)
        else
          var rest := CrawlFrom(pages, n + 1);
          Crawl(Prepend(es, rest.outcome), 1 + rest.requests)
  }

  /** Every request of a crawl but its last sends the crawl on along a `rel=next` link. */
  lemma {:induction false} CrawlFollowsNext(pages: seq<Response<ListingPage>>, n: nat)
    requires Complete(pages) && n < |pages|
    ensures forall k :: n <= k < n + CrawlFrom(pages, n).requests - 1 ==> FollowedFrom(pages[k]).Some?
    decreases |pages| - n
  {
    if CrawlFrom(pages, n).requests > 1 {
      CrawlFollowsNext(pages, n + 1);
    }
  }

  /** The recorded addresses are the addresses of the individual requests. */
  lemma {:induction false} RequestUrlsAt(profileUrl: string, pages: seq<Response<ListingPage>>, m: nat)
    requires m <= |pages|
    ensures forall k :: 0 <= k < m ==> RequestUrls(profileUrl, pages, m)[k] == RequestUrl(profileUrl, pages, k)
  {
    if m > 0 {
      RequestUrlsAt(profileUrl, pages, m - 1);
      var prev := RequestUrls(profileUrl, pages, m - 1);
      var urls := prev + [RequestUrl(profileUrl, pages, m - 1)];
      assert RequestUrls(profileUrl, pages, m) == urls;
      forall k | 0 <= k < m
        ensures urls[k] == RequestUrl(profileUrl, pages, k)
      {
        if k < m - 1 {
          assert urls[k] == prev[k];
        }
      }
    }
  }

  /**
   * The addresses a crawl requests: the profile's repository view first, then, for each
   * later request, the resolved `href` of the previous page's `rel=next` anchor.
   */
  lemma ListingRequestTrail(profileUrl: string, pages: seq<Response<ListingPage>>)
    requires Complete(pages)
    ensures var urls := RequestUrls(profileUrl, pages, CrawlFrom(pages, 0).requests);
      urls[0] == ListingUrl(profileUrl) &&
      forall k :: 0 < k < |urls| ==> FollowedFrom(pages[k - 1]) == Some(urls[k])
  {
    var m := CrawlFrom(pages, 0).requests;
    RequestUrlsAt(profileUrl, pages, m);
    CrawlFollowsNext(pages, 0);
    forall k | 0 < k < m
      ensures FollowedFrom(pages[k - 1]) == Some(RequestUrls(profileUrl, pages, m)[k])
    {
      assert FollowedFrom(pages[k - 1]).Some?;
    }
  }

  /** The entries of pages `n` up to (not including) `j`, in page order. */
  function Gathered(pages: seq<Response<ListingPage>>, n: nat, j: nat): seq<Entry>
    requires n <= j <= |pages|
    requires forall k :: n <= k < j ==> Advances(pages, k)
    decreases j - n
  {
    if n == j then []
    else
      assert Advances(pages, n);
      PageEntries(pages[n].doc.items).value + Gathered(pages, n + 1, j)
  }

  /**
   * While pages `n`..`j-1` each advance, the crawl from `n` is their entries in page
   * order followed by the crawl from `j`, after `j - n` requests.
   */
  lemma {:induction false} CrawlThrough(pages: seq<Response<ListingPage>>, n: nat, j: nat)
    requires Complete(pages) && n <= j < |pages|
    requires forall k :: n <= k < j ==> Advances(pages, k)
    ensures CrawlFrom(pages, n).outcome == Prepend(Gathered(pages, n, j), CrawlFrom(pages, j).outcome)
    ensures CrawlFrom(pages, n).requests == (j - n) + CrawlFrom(pages, j).requests
    decreases j - n
  {
    if n == j {
      match CrawlFrom(pages, j).outcome
      case Success(es) => assert [] + es == es;
      case Failure(_) =>
    } else {
      CrawlThrough(pages, n + 1, j);
      assert Advances(pages, n);
      var es := PageEntries(pages[n].doc.items).value;
      match CrawlFrom(pages, j).outcome
      case Success(tail) =>
        assert es + (Gathered(pages, n + 1, j) + tail) == (es + Gathered(pages, n + 1, j)) + tail;
      case Failure(_) =>
    }
  }

  /**
   * A failed request for page `j` ends pagination: the result is exactly the entries of
   * the earlier pages (none when `j == 0`), after `j + 1` requests.
   */
  lemma FetchFailureKeepsEarlierPages(pages: seq<Response<ListingPage>>, j: nat)
    requires Complete(pages) && j < |pages|
    requires forall k :: 0 <= k < j ==> Advances(pages, k)
    requires !Succeeded(pages[j])
    ensures CrawlFrom(pages, 0) == Crawl(Success(Gathered(pages, 0, j)), j + 1)
    ensures j == 0 ==> CrawlFrom(pages, 0) == Crawl(Success([]), 1)
  {
    CrawlThrough(pages, 0, j);
    assert Gathered(pages, 0, j) + [] == Gathered(pages, 0, j);
  }

  /**
   * A fetched page `j` without a usable `rel=next` link is the last one: the result is
   * the entries of pages `0`..`j` in page order, after `j + 1` requests.
   */
  lemma LastPageEndsCrawl(pages: seq<Response<ListingPage>>, j: nat)
    requires Complete(pages) && j < |pages|
    requires forall k :: 0 <= k < j ==> Advances(pages, k)
    requires Succeeded(pages[j]) && PageEntries(pages[j].doc.items).Success?
    requires NextHref(pages[j].doc.next).None?
    ensures CrawlFrom(pages, 0) ==
      Crawl(Success(Gathered(pages, 0, j) + PageEntries(pages[j].doc.items).value), j + 1)
  {
    CrawlThrough(pages, 0, j);
    if j == 0 && pages[0].doc.items == [] {
      assert PageEntries(pages[0].doc.items).value == [];
    }
  }

  /** An empty first page ends the crawl at once with no entries and no further request. */
  lemma EmptyFirstPageStops(pages: seq<Response<ListingPage>>)
    requires Complete(pages) && Succeeded(pages[0]) && pages[0].doc.items == []
    ensures CrawlFrom(pages, 0) == Crawl(Success([]), 1)
  {
  }

  /**
   * After the first page, a page without items does not end the crawl: it contributes
   * nothing and pagination goes on exactly as its `rel=next` link says.
   */
  lemma EmptyLaterPageContinues(pages: seq<Response<ListingPage>>, n: nat)
    requires Complete(pages) && 0 < n < |pages|
    requires Succeeded(pages[n]) && pages[n].doc.items == [] && NextHref(pages[n].doc.next).Some?
    ensures n + 1 < |pages|
    ensures CrawlFrom(pages, n) == Crawl(CrawlFrom(pages, n + 1).outcome, 1 + CrawlFrom(pages, n + 1).requests)
  {
    match CrawlFrom(pages, n + 1).outcome
    case Success(es) => assert [] + es == es;
    case Failure(_) =>
  }

  /**
   * On a fetched page that does not end the crawl otherwise, another page is requested
   * exactly when the page has a `rel=next` anchor with an `href`.
   */
  lemma NextLinkDecidesPagination(pages: seq<Response<ListingPage>>, n: nat)
    requires Complete(pages) && n < |pages|
    requires Succeeded(pages[n]) && !(n == 0 && pages[n].doc.items == [])
    requires PageEntries(pages[n].doc.items).Success?
    ensures CrawlFrom(pages, n).requests > 1 <==> NextHref(pages[n].doc.next).Some?
  {
  }

  /** Prepending twice is prepending the concatenation. */
  lemma PrependTwice(a: seq<Entry>, b: seq<Entry>, r: Result<seq<Entry>, ListingError>)
    ensures Prepend(a, Prepend(b, r)) == Prepend(a + b, r)
  {
    match r
    case Success(es) => assert a + (b + es) == (a + b) + es;
    case Failure(_) =>
  }

  /**
   * The inner `for item in repo_list_items` loop: appends the page's entries to those
   * collected so far, or raises on a heading link without `href`.
   */
  method CollectPage(items: seq<Item>, acc: seq<Entry>) returns (r: Result<seq<Entry>, ListingError>)
    ensures r == Prepend(acc, PageEntries(items))
  {
    var allRepoInfo := acc;
    var i := 0;
    while i < |items|
      invariant 0 <= i <= |items|
      invariant Prepend(acc, PageEntries(items)) == Prepend(allRepoInfo, PageEntries(items[i..]))
    {
      var item := items[i];
      assert items[i..][1..] == items[i + 1..];
      match item.link {
        case NoHeadingLink =>
        case HeadingLink(href) =>
          if href.None? {
            return Failure(MissingHref);
          }
          var fullUrl := Resolve(href.value);
          var repoType := Classify(item);
          PrependTwice(allRepoInfo, [Entry(fullUrl, repoType)], PageEntries(items[i + 1..]));
          allRepoInfo := allRepoInfo + [Entry(fullUrl, repoType)];
      }
      i := i + 1;
    }
    assert items[i..] == [];
    assert allRepoInfo + [] == allRepoInfo;
    return Success(allRepoInfo);
  }

  /**
   * The loop's bookkeeping before request `n`: the whole crawl is the entries collected so
   * far followed by the crawl from request `n`, after `n` requests already made.
   */
  ghost predicate Pending(pages: seq<Response<ListingPage>>, n: nat, acc: seq<Entry>, whole: Crawl)
    requires Complete(pages)
  {
    n < |pages| &&
    whole.outcome == Prepend(acc, CrawlFrom(pages, n).outcome) &&
    whole.requests == n + CrawlFrom(pages, n).requests
  }

  /** One iteration of the loop, seen from the whole crawl. */
  lemma PendingStep(pages: seq<Response<ListingPage>>, n: nat, acc: seq<Entry>, whole: Crawl)
    requires Complete(pages) && Pending(pages, n, acc, whole)
    ensures !Succeeded(pages[n]) ==> whole == Crawl(Success(acc), n + 1)
    ensures Succeeded(pages[n]) && n == 0 && pages[n].doc.items == [] && acc == [] ==>
      whole == Crawl(Success([]), 1)
    ensures Succeeded(pages[n]) && !(n == 0 && pages[n].doc.items == []) ==>
      match PageEntries(pages[n].doc.items)
      case Failure(e) => whole == Crawl(Failure(e), n + 1)
      case Success(es) =>
        if NextHref(pages[n].doc.next).Some?
        then Pending(pages, n + 1, acc + es, whole)
        else whole == Crawl(Success(acc + es), n + 1)
  {
    var r := pages[n];
    if !Succeeded(r) {
      assert acc + [] == acc;
    } else if !(n == 0 && r.doc.items == []) {
      match PageEntries(r.doc.items)
      case Failure(_) =>
      case Success(es) =>
        if NextHref(r.doc.next).Some? {
          PrependTwice(acc, es, CrawlFrom(pages, n + 1).outcome);
        }
    }
  }

  /**
   * The loop of `get_all_repo_info`. Returns the outcome and the address of every listing
   * request made, in order: the profile's listing view first, then each followed `rel=next`.
   */
  method GetAllRepoInfo(profileUrl: string, pages: seq<Response<ListingPage>>)
    returns (result: Result<seq<Entry>, ListingError>, urls: seq<string>)
    requires Complete(pages)
    ensures result == CrawlFrom(pages, 0).outcome
    ensures |urls| == CrawlFrom(pages, 0).requests
    ensures urls == RequestUrls(profileUrl, pages, |urls|)
  {
    var allRepoInfo: seq<Entry> := [];
    var currentPageUrl: Option<string> := Some(ListingUrl(profileUrl));
    var pageNum := 1;
    urls := [];
    ghost var whole := CrawlFrom(pages, 0);
    match whole.outcome {
      case Success(es) => assert [] + es == es;
      case Failure(_) =>
    }

    while currentPageUrl.Some? && currentPageUrl.value != ""
      invariant currentPageUrl.Some? ==>
        currentPageUrl.value != "" && pageNum == |urls| + 1 && Pending(pages, |urls|, allRepoInfo, whole)
      invariant currentPageUrl.None? ==> whole == Crawl(Success(allRepoInfo), |urls|)
      invariant |urls| == 0 ==> allRepoInfo == []
      invariant currentPageUrl.Some? ==> currentPageUrl.value == RequestUrl(profileUrl, pages, |urls|)
      invariant |urls| <= |pages| && urls == RequestUrls(profileUrl, pages, |urls|)
      decreases if currentPageUrl.Some? then |pages| - |urls| + 1 else 0
    {
      var n := |urls|;
      PendingStep(pages, n, allRepoInfo, whole);
      var response := pages[n];
      urls := urls + [currentPageUrl.value];
      if !Succeeded(response) {
        break;
      }
      var page := response.doc;
      if page.items == [] && pageNum == 1 {
        return Success([]), urls;
      }
      var collected := CollectPage(page.items, allRepoInfo);
      if collected.Failure? {
        return Failure(collected.error), urls;
      }
      allRepoInfo := collected.value;
      match page.next {
        case NextAnchor(Some(href)) =>
          assert FollowedFrom(response) == Some(Resolve(href));
          currentPageUrl := Some(Resolve(href));
          pageNum := pageNum + 1;
        case _ =>
          currentPageUrl := None;
      }
    }
    return Success(allRepoInfo), urls;
  }
}
