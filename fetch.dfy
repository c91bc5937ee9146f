/**
 * One HTTP GET as the scraper sees it. The network is not modelled: each request's
 * outcome is an input. A request either raises before a response exists (connection
 * error, timeout, ...) or yields a status code and a parsed document.
 */
module Fetch {
  datatype Response<D> = RequestError | Received(status: int, doc: D)

  /** The statuses for which `raise_for_status()` raises: client (4xx) and server (5xx) errors. */
  predicate IsErrorStatus(status: int) {
    400 <= status < 600
  }

  /**
   * `requests.get(...)` followed by `raise_for_status()` completed without raising,
   * so the caller goes on to parse the document.
   */
  predicate Succeeded<D>(r: Response<D>) {
    r.Received? && !IsErrorStatus(r.status)
  }
}
