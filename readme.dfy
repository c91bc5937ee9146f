/**
 * `scrape_readme` (app.py): the README cell of one repository, chosen from the outcome of
 * fetching the repository's page. The page is reduced to what the scraper reads from it:
 * the text of its `article.markdown-body`, already extracted (whitespace-joined and
 * trimmed by the HTML library), if the page has one.
 */
module Readme {
  import opened Wrappers
  import opened Fetch

  const NotFound: string := "README not found."
  const RequestFailed: string := "Could not fetch README (request failed)."

  datatype RepoPage = RepoPage(article: Option<string>)

  /**
   * The README cell: the article's text, the "not found" sentinel when the fetched page has
   * no README article, or the "request failed" sentinel when the request raised, including
   * an error status rejected by `raise_for_status()`.
   */
  function ScrapeReadme(r: Response<RepoPage>): (content: string)
    ensures content == RequestFailed || content == NotFound ||
            (Succeeded(r) && r.doc.article == Some(content))
    ensures r.RequestError? ==> content == RequestFailed
    ensures r.Received? && IsErrorStatus(r.status) ==> content == RequestFailed
    ensures Succeeded(r) && r.doc.article.None? ==> content == NotFound
    ensures Succeeded(r) && r.doc.article.Some? ==> content == r.doc.article.value
  {
    if !Succeeded(r) then RequestFailed
    else
      match r.doc.article
      case Some(text) => text
      case None => NotFound
  }

  /** Which of the three outcomes a README cell reports. */
  datatype ReadmeStatus = Extracted | Missing | FetchFailed

  /** Reads a README cell back: a sentinel names its outcome, any other text is extracted content. */
  function StatusOf(cell: string): ReadmeStatus {
    if cell == RequestFailed then FetchFailed
    else if cell == NotFound then Missing
    else Extracted
  }

  /** The outcome behind a response, as the source's branches decide it. */
  function Outcome(r: Response<RepoPage>): ReadmeStatus {
    if !Succeeded(r) then FetchFailed
    else if r.doc.article.None? then Missing
    else Extracted
  }

  /**
   * The two sentinels are distinct, so a table reader can tell a missing README from a
   * failed request: unless the article text is itself a sentinel, the cell's status is
   * the response's outcome.
   */
  lemma StatusOfScrapeReadme(r: Response<RepoPage>)
    requires Succeeded(r) && r.doc.article.Some? ==>
      r.doc.article.value != NotFound && r.doc.article.value != RequestFailed
    ensures StatusOf(ScrapeReadme(r)) == Outcome(r)
  {
  }
}
