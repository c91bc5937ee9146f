/**
 * `run_scraper` (app.py): crawl the listing, then build one row per discovered repository,
 * in discovery order, fetching each repository's README in turn. README responses are
 * input, `readmes[k]` being the outcome of the k-th README request.
 */
module Scraper {
  import opened Wrappers
  import opened Text
  import opened Fetch
  import opened Listing
  import opened Readme

  /** The column order the table is rearranged into. */
  const Columns: seq<string> := ["Project Name", "Type", "URL", "README Content"]

  datatype Row = Row(name: string, kind: RepoType, url: string, readme: string) {
    /** The row's cells, in the order of `Columns`. */
    function Cells(): seq<string> {
      [name, kind.Label(), url, readme]
    }
  }

  /** A table with its column labels; `pd.DataFrame()` is the table with no columns and no rows. */
  datatype Table = Table(columns: seq<string>, rows: seq<Row>)

  const EmptyTable: Table := Table([], [])

  /** `url.split('/')[-1]`: the text after the last '/', all of `url` if it has none. */
  function ProjectName(url: string): (name: string)
    ensures '/' !in name
    ensures |name| <= |url| && name == url[|url| - |name|..]
    ensures |name| < |url| ==> url[|url| - |name| - 1] == '/'
  {
    LastPiece(url, '/');
    var parts := Split(url, '/');
    parts[|parts| - 1]
  }

  /**
   * The name of ".../owner/my-repo" is exactly "my-repo"; with `name == ""`, a URL
   * ending in '/' has an empty name.
   */
  lemma ProjectNameAfterSlash(prefix: string, name: string)
    requires '/' !in name
    ensures ProjectName(prefix + "/" + name) == name
  {
    var url := prefix + "/" + name;
    var r := ProjectName(url);
    assert url[|url| - |name| - 1] == '/';
    assert forall q :: |url| - |r| <= q < |url| ==> url[q] != '/' by {
      forall q | |url| - |r| <= q < |url| ensures url[q] != '/' {
        assert url[q] == r[q - (|url| - |r|)];
      }
    }
    assert forall q :: |url| - |name| <= q < |url| ==> url[q] != '/' by {
      forall q | |url| - |name| <= q < |url| ensures url[q] != '/' {
        assert url[q] == name[q - (|url| - |name|)];
      }
    }
    assert |r| == |name|;
    assert url[|url| - |name|..] == name;
  }

  /** The row built for one discovered repository, given the response to its README request. */
  function RowFor(entry: Entry, readme: Response<RepoPage>): Row {
    Row(ProjectName(entry.url), entry.kind, entry.url, ScrapeReadme(readme))
  }

  /**
   * The table for the discovered entries: empty, with no columns, when there are none;
   * otherwise the fixed columns and one row per entry, in entry order.
   */
  function TableOf(entries: seq<Entry>, readmes: seq<Response<RepoPage>>): Table
    requires |readmes| >= |entries|
  {
    if entries == [] then EmptyTable
    else Table(Columns, seq(|entries|, i requires 0 <= i < |entries| => RowFor(entries[i], readmes[i])))
  }

  /**
   * Every row describes its entry: the name is the URL's last path segment, type and URL
   * are copied unchanged, the README cell is one of the three outcomes, and the cells
   * line up with the column labels.
   */
  lemma RowsDescribeEntries(entries: seq<Entry>, readmes: seq<Response<RepoPage>>)
    requires |readmes| >= |entries|
    ensures |TableOf(entries, readmes).rows| == |entries|
    ensures entries != [] ==> TableOf(entries, readmes).columns == Columns
    ensures forall i :: 0 <= i < |entries| ==>
      var row := TableOf(entries, readmes).rows[i];
      row.url == entries[i].url && row.kind == entries[i].kind &&
      '/' !in row.name && row.name == row.url[|row.url| - |row.name|..] &&
      (|row.name| < |row.url| ==> row.url[|row.url| - |row.name| - 1] == '/') &&
      row.readme == ScrapeReadme(readmes[i]) &&
      |row.Cells()| == |Columns| && row.Cells()[1] in {"Original", "Fork"}
  {
  }

  /**
   * The row loop of `run_scraper`: one README request per entry, in order, and the table
   * of rows (no request and the empty table when there are no entries).
   */
  method AssembleTable(entries: seq<Entry>, readmes: seq<Response<RepoPage>>)
    returns (table: Table, readmeUrls: seq<string>)
    requires |readmes| >= |entries|
    ensures table == TableOf(entries, readmes)
    ensures |readmeUrls| == |entries|
    ensures forall i :: 0 <= i < |entries| ==> readmeUrls[i] == entries[i].url
  {
    if entries == [] {
      return EmptyTable, [];
    }
    var allProjectsData: seq<Row> := [];
    readmeUrls := [];
    for i := 0 to |entries|
      invariant |allProjectsData| == i && |readmeUrls| == i
      invariant forall k :: 0 <= k < i ==> allProjectsData[k] == RowFor(entries[k], readmes[k])
      invariant forall k :: 0 <= k < i ==> readmeUrls[k] == entries[k].url
    {
      var url := entries[i].url;
      var repoType := entries[i].kind;
      var projectName := ProjectName(url);
      readmeUrls := readmeUrls + [url];
      var readmeContent := ScrapeReadme(readmes[i]);
      var row := Row(projectName, repoType, url, readmeContent);
      assert row == RowFor(entries[i], readmes[i]);
      allProjectsData := allProjectsData + [row];
    }
    assert allProjectsData == TableOf(entries, readmes).rows;
    table := Table(Columns, allProjectsData);
  }

  /** The README responses cover every repository the crawl discovers. */
  predicate CoversReadmes(listing: seq<Response<ListingPage>>, readmes: seq<Response<RepoPage>>)
    requires Complete(listing)
  {
    CrawlFrom(listing, 0).outcome.Success? ==> |readmes| >= |CrawlFrom(listing, 0).outcome.value|
  }

  /** The whole run: the crawl's exception escapes; otherwise the table of what it found. */
  function Scrape(listing: seq<Response<ListingPage>>, readmes: seq<Response<RepoPage>>): Result<Table, ListingError>
    requires Complete(listing) && CoversReadmes(listing, readmes)
  {
    match CrawlFrom(listing, 0).outcome
    case Failure(e) => Failure(e)
    case Success(entries) => Success(TableOf(entries, readmes))
  }

  /**
   * `run_scraper(github_url)`: the table, the listing requests made and the README
   * requests made, in order.
   */
  method RunScraper(githubUrl: string, listing: seq<Response<ListingPage>>, readmes: seq<Response<RepoPage>>)
    returns (table: Result<Table, ListingError>, listingUrls: seq<string>, readmeUrls: seq<string>)
    requires Complete(listing) && CoversReadmes(listing, readmes)
    ensures table == Scrape(listing, readmes)
    ensures |listingUrls| == CrawlFrom(listing, 0).requests
    ensures listingUrls == RequestUrls(githubUrl, listing, |listingUrls|)
    ensures readmeUrls == if CrawlFrom(listing, 0).outcome.Success?
      then seq(|CrawlFrom(listing, 0).outcome.value|, i requires 0 <= i < |CrawlFrom(listing, 0).outcome.value| =>
             CrawlFrom(listing, 0).outcome.value[i].url)
      else []
  {
    var repoInfoList;
    repoInfoList, listingUrls := GetAllRepoInfo(githubUrl, listing);
    match repoInfoList {
      case Failure(e) =>
        table, readmeUrls := Failure(e), [];
      case Success(entries) =>
        var t;
        t, readmeUrls := AssembleTable(entries, readmes);
        table := Success(t);
    }
  }

  /** An empty first listing page gives the empty table and no README request. */
  lemma EmptyFirstPageGivesEmptyTable(listing: seq<Response<ListingPage>>, readmes: seq<Response<RepoPage>>)
    requires Complete(listing) && Succeeded(listing[0]) && listing[0].doc.items == []
    ensures CoversReadmes(listing, readmes)
    ensures Scrape(listing, readmes) == Success(EmptyTable)
  {
  }

  /** Page 1: two original repositories and a `rel=next` link. */
  function FirstPage(): ListingPage {
    ListingPage([Item(HeadingLink(Some("/u/repo1")), [Some("Python")]),
                 Item(HeadingLink(Some("/u/repo2")), [])],
                NextAnchor(Some("/u?page=2")))
  }

  /** Page 2: an item without heading link, then a fork; no `rel=next` link. */
  function SecondPage(): ListingPage {
    ListingPage([Item(NoHeadingLink, [Some("Forked from elsewhere")]),
                 Item(HeadingLink(Some("/u/repo3")), [None, Some("Forked from o/repo3")])],
                NoNextAnchor)
  }

  /** The two listing responses of the example profile, both 200. */
  function TwoPageListing(): seq<Response<ListingPage>> {
    [Received(200, FirstPage()), Received(200, SecondPage())]
  }

  /** The README responses of the example: found, a 404, and a request failure. */
  function ExampleReadmes(): seq<Response<RepoPage>> {
    [Received(200, RepoPage(Some("Hello"))), Received(404, RepoPage(None)), RequestError]
  }

  /** The entries the example profile should yield, in discovery order. */
  function ExampleEntries(): seq<Entry> {
    [Entry("https://github.com/u/repo1", Original),
     Entry("https://github.com/u/repo2", Original),
     Entry("https://github.com/u/repo3", Fork)]
  }

  /** The heading links of the example resolve against the site root. */
  lemma ExampleUrls()
    ensures Resolve("/u/repo1") == ExampleEntries()[0].url
    ensures Resolve("/u/repo2") == ExampleEntries()[1].url
    ensures Resolve("/u/repo3") == ExampleEntries()[2].url
  {
  }

  /** The example repositories are named after the last segment of their URLs. */
  lemma ExampleNames()
    ensures ProjectName(ExampleEntries()[0].url) == "repo1"
    ensures ProjectName(ExampleEntries()[1].url) == "repo2"
    ensures ProjectName(ExampleEntries()[2].url) == "repo3"
  {
  }

  /** Page 1 yields repo1 and repo2, both Original, in page order. */
  lemma FirstPageEntries()
    ensures PageEntries(FirstPage().items) == Success(ExampleEntries()[..2])
  {
    var es := ExampleEntries();
    var items := FirstPage().items;
    ExampleUrls();
    assert Classify(items[0]) == Original && Classify(items[1]) == Original;
    assert items[1..][0] == items[1] && items[1..][1..] == [];
    assert PageEntries(items[1..][1..]).value == [];
    assert [es[1]] + [] == [es[1]];
    assert PageEntries(items[1..]).value == [es[1]];
    assert [es[0]] + [es[1]] == es[..2];
  }

  /** Page 2 yields only repo3, classified Fork; the item without heading link is skipped. */
  lemma SecondPageEntries()
    ensures PageEntries(SecondPage().items) == Success(ExampleEntries()[2..])
  {
    var es := ExampleEntries();
    var items := SecondPage().items;
    var fork := "Forked from o/repo3";
    assert fork[..|ForkMarker|] == ForkMarker;
    assert IsForkMarker(Some(fork));
    assert Classify(items[1]) == Fork;
    ExampleUrls();
    assert items[1..][0] == items[1] && items[1..][1..] == [];
    assert PageEntries(items[1..][1..]).value == [];
    assert [es[2]] + [] == es[2..];
  }

  /** The second page has no `rel=next` link, so the crawl ends there. */
  lemma SecondPageCrawl()
    ensures Complete(TwoPageListing())
    ensures CrawlFrom(TwoPageListing(), 1) == Crawl(Success(ExampleEntries()[2..]), 1)
  {
    SecondPageEntries();
  }

  /** Crawling the example profile takes two requests and finds the three entries. */
  lemma TwoPageCrawl()
    ensures Complete(TwoPageListing())
    ensures CrawlFrom(TwoPageListing(), 0) == Crawl(Success(ExampleEntries()), 2)
  {
    var listing := TwoPageListing();
    var es := ExampleEntries();
    FirstPageEntries();
    SecondPageCrawl();
    assert Succeeded(listing[0]) && listing[0].doc == FirstPage();
    assert NextHref(FirstPage().next).Some?;
    assert CrawlFrom(listing, 0).outcome == Prepend(es[..2], Success(es[2..]));
    assert es[..2] + es[2..] == es;
  }

  /**
   * The rows the example should produce: repo1 and repo2 Original and repo3 Fork, named
   * after the last URL segment; the 404 and the failed request both read as failures.
   */
  function ExampleRows(): seq<Row> {
    [Row("repo1", Original, "https://github.com/u/repo1", "Hello"),
     Row("repo2", Original, "https://github.com/u/repo2", RequestFailed),
     Row("repo3", Fork, "https://github.com/u/repo3", RequestFailed)]
  }

  /**
   * The example profile end to end: one row per discovered repository in discovery
   * order; the item without heading link is skipped, and a failed README request only
   * changes that row's README cell.
   */
  lemma TwoPageProfile()
    ensures Complete(TwoPageListing()) && CoversReadmes(TwoPageListing(), ExampleReadmes())
    ensures var result := Scrape(TwoPageListing(), ExampleReadmes());
      result.Success? && result.value.columns == Columns && |result.value.rows| == 3
    ensures Scrape(TwoPageListing(), ExampleReadmes()).value.rows[0] == ExampleRows()[0]
    ensures Scrape(TwoPageListing(), ExampleReadmes()).value.rows[1] == ExampleRows()[1]
    ensures Scrape(TwoPageListing(), ExampleReadmes()).value.rows[2] == ExampleRows()[2]
  {
    TwoPageCrawl();
    ExampleNames();
  }
}
