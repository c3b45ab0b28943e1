/**
 * ga4_bck.py: an earlier copy of the page-views report with the property
 * identifier written into the request and a dimension list whose first entry
 * is the integer literal 3 rather than a named dimension.
 */
module Ga4Bck {
  import opened ReportTypes
  import opened Pagination

  /** The report ga4_bck.py requests. */
  function BackupSpec(): ReportSpec
  {
    ReportSpec(
      "properties/302263505",
      [BareInt(3), Dimension("date")],
      ["screenPageViews"],
      ["pagePath"],
      Last30Days,
      NonEmptyPagePath)
  }

  /** The report client; the credentials it is built from are not modelled,
      the API client is the `server` given to each report call. */
  class GA4Report {
    const dealerName: string
    /** The page size, fixed for every request. */
    const limit: nat := 10_000

    constructor (dealerName: string)
      ensures this.dealerName == dealerName
    {
      this.dealerName := dealerName;
    }

    /** Fetches every page of the report. No row width is promised: the
        declared dimension list is not one the service can honour, so each
        row is whatever the service returned, flattened. */
    method RunReport(server: Request -> Page, ghost bound: nat) returns (data: Table, ghost requests: seq<Request>)
      requires CountsBounded(server, BackupSpec(), limit, bound)
      ensures requests == Requests(server, BackupSpec(), limit, 0, bound)
      ensures data == Collect(server, Requests(server, BackupSpec(), limit, 0, bound))
      ensures |requests| >= 1
      ensures forall i :: 0 <= i < |requests| ==> requests[i] == Request(BackupSpec(), 10_000, i * 10_000)
    {
      data, requests := Fetch(BackupSpec(), limit, server, bound);
    }
  }
}
