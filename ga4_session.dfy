/**
 * ga4-session.py: two reports over the same pagination loop. The session
 * report joins sessionSourceMedium with pagePath and date; the conversions
 * report joins eventName and isKeyEvent with pagePath and date.
 */
module Ga4Session {
  import opened ReportTypes
  import opened Pagination

  /** The session report: three dimensions, screenPageViews. */
  function SessionSpec(property: string): ReportSpec
  {
    ReportSpec(
      "properties/" + property,
      [Dimension("sessionSourceMedium"), Dimension("pagePath"), Dimension("date")],
      ["screenPageViews"],
      ["pagePath", "date", "sessionSourceMedium"],
      Last30Days,
      NonEmptyPagePath)
  }

  /** The conversions report: four dimensions, eventCount. */
  function ConversionsSpec(property: string): ReportSpec
  {
    ReportSpec(
      "properties/" + property,
      [Dimension("eventName"), Dimension("isKeyEvent"), Dimension("pagePath"), Dimension("date")],
      ["eventCount"],
      ["eventName", "pagePath", "date"],
      Last30Days,
      NonEmptyPagePath)
  }

  /** The report client of one dealer's property. The API client built from
      the dealer's key file is the `server` given to each report call. */
  class GA4Report {
    const property: string
    const dealerName: string
    /** The page size, fixed for every request. */
    const limit: nat := 10_000

    constructor (dealerName: string, property: string)
      ensures this.dealerName == dealerName && this.property == property
    {
      this.property := property;
      this.dealerName := dealerName;
    }

    /** Fetches every page of the session report. */
    method RunReportSession(server: Request -> Page, ghost bound: nat) returns (data: Table, ghost requests: seq<Request>)
      requires CountsBounded(server, SessionSpec(property), limit, bound)
      ensures requests == Requests(server, SessionSpec(property), limit, 0, bound)
      ensures data == Collect(server, Requests(server, SessionSpec(property), limit, 0, bound))
      ensures |requests| >= 1
      ensures forall i :: 0 <= i < |requests| ==> requests[i] == Request(SessionSpec(property), 10_000, i * 10_000)
      ensures (forall i :: 0 <= i < |requests| ==> PageConforms(server(requests[i]), SessionSpec(property))) ==>
                forall j :: 0 <= j < |data| ==> |data[j]| == 4
    {
      data, requests := Fetch(SessionSpec(property), limit, server, bound);
      if forall i :: 0 <= i < |requests| ==> PageConforms(server(requests[i]), SessionSpec(property)) {
        CollectWidth(server, requests, SessionSpec(property));
      }
    }

    /** Fetches every page of the conversions report. */
    method RunReportConversions(server: Request -> Page, ghost bound: nat) returns (data: Table, ghost requests: seq<Request>)
      requires CountsBounded(server, ConversionsSpec(property), limit, bound)
      ensures requests == Requests(server, ConversionsSpec(property), limit, 0, bound)
      ensures data == Collect(server, Requests(server, ConversionsSpec(property), limit, 0, bound))
      ensures |requests| >= 1
      ensures forall i :: 0 <= i < |requests| ==> requests[i] == Request(ConversionsSpec(property), 10_000, i * 10_000)
      ensures (forall i :: 0 <= i < |requests| ==> PageConforms(server(requests[i]), ConversionsSpec(property))) ==>
                forall j :: 0 <= j < |data| ==> |data[j]| == 5
    {
      data, requests := Fetch(ConversionsSpec(property), limit, server, bound);
      if forall i :: 0 <= i < |requests| ==> PageConforms(server(requests[i]), ConversionsSpec(property)) {
        CollectWidth(server, requests, ConversionsSpec(property));
      }
    }
  }
}
