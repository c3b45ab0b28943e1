/**
 * ga4.py: the page-views report. Each row is pagePath and date followed by
 * screenPageViews, the service sorting by pagePath.
 */
module Ga4 {
  import opened ReportTypes
  import opened Pagination

  /** The report ga4.py requests for a property. */
  function PageViewsSpec(property: string): ReportSpec
  {
    ReportSpec(
      "properties/" + property,
      [Dimension("pagePath"), Dimension("date")],
      ["screenPageViews"],
      ["pagePath"],
      Last30Days,
      NonEmptyPagePath)
  }

  /** The report client of one dealer's property. The API client built from
      the dealer's key file is not a field here: it is the `server` given to
      each report call. */
  class GA4Report {
    const property: string
    const dealerName: string
    /** The page size, fixed for every request. */
    const limit: nat := 10_000

    constructor (dealerName: string, property: string)
      ensures this.dealerName == dealerName && this.property == property
    {
      this.property := property;
      this.dealerName := dealerName;
    }

    /** Fetches every page of the page-views report. */
    method RunReport(server: Request -> Page, ghost bound: nat) returns (data: Table, ghost requests: seq<Request>)
      requires CountsBounded(server, PageViewsSpec(property), limit, bound)
      ensures requests == Requests(server, PageViewsSpec(property), limit, 0, bound)
      ensures data == Collect(server, Requests(server, PageViewsSpec(property), limit, 0, bound))
      ensures |requests| >= 1
      ensures forall i :: 0 <= i < |requests| ==> requests[i] == Request(PageViewsSpec(property), 10_000, i * 10_000)
      ensures (forall i :: 0 <= i < |requests| ==> PageConforms(server(requests[i]), PageViewsSpec(property))) ==>
                forall j :: 0 <= j < |data| ==> |data[j]| == 3
    {
      data, requests := Fetch(PageViewsSpec(property), limit, server, bound);
      if forall i :: 0 <= i < |requests| ==> PageConforms(server(requests[i]), PageViewsSpec(property)) {
        CollectWidth(server, requests, PageViewsSpec(property));
      }
    }
  }
}
