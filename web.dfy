/**
 * The two web APIs the tool consumes, reduced to what the model observes:
 * the requests issued, in order, and what a download-count request returns.
 */
module Web {

  /** A request to one of the two web APIs. */
  datatype Request =
    | DependentsInfo                  // the dependency-graph API's metadata of the target package
    | DependentsPage(page: int)       // one page of the target package's dependents
    | DownloadStats(name: string)     // the statistics API's recent downloads of one package

  /** What asking the statistics API for one package's last-month downloads gives. */
  datatype FetchOutcome =
    | Downloads(lastMonth: nat)       // a 2xx answer carrying `data.last_month`
    | HttpError(status: int)          // `raise_for_status` raised an HTTP error with this status
    | RequestFailed                   // any other exception: connection failure, malformed answer

  /** 404 is the one failure the resolution loop absorbs. */
  predicate IsNotFound(o: FetchOutcome)
  {
    o.HttpError? && o.status == 404
  }

  /** Every failure other than 404 ends the resolution loop. */
  predicate IsFatal(o: FetchOutcome)
  {
    !o.Downloads? && !IsNotFound(o)
  }
}
