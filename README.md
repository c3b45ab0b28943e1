# GA4 paginated report fetcher, modelled in Dafny

The repository pulls web-analytics reports for one dealer's property from the
Google Analytics Data API and writes them to a CSV file. The only logic in it
is the paginated fetch-and-accumulate loop. It appears four times:
`GA4Report.run_report` in ga4.py and in ga4_bck.py, and
`GA4Report.run_report_session` and `GA4Report.run_report_conversions` in
ga4-session.py. Each copy does the same thing:

- it starts at offset 0 with an empty table;
- it requests one page of at most `limit` (10 000) rows at the current offset;
- it appends each returned row as its dimension values followed by its metric values;
- it advances the offset by `limit`;
- it stops as soon as the offset exceeds the total row count the service
  reported on the page just received.

The project models that loop once and instantiates it per report.

- `report_types.dfy` (module `ReportTypes`) holds the values exchanged with
  the service. `ReportSpec` is the request body. `Request` is the body plus
  page window. `Page` is one response: its rows and the reported total
  `rowCount`. `Row` is the row's dimension and metric values, as strings.
- `pagination.dfy` (module `Pagination`) holds the loop `Fetch` and its
  specification. `Requests` gives the sequence of requests the loop issues.
  `Collect` gives the table accumulated from their responses. The lemmas
  cover the offsets, the stop rule, the request count for a constant row
  count, append-only accumulation and row width.
- `ga4.dfy`, `ga4_bck.dfy` and `ga4_session.dfy` (modules `Ga4`, `Ga4Bck`,
  `Ga4Session`) each hold one source file's `GA4Report` class. Each class has
  its constant fields, with the page size fixed at 10 000. Its report methods
  run `Fetch` on that report's request body. Each body is a `ReportSpec`
  constant, written out field by field as the source builds the request:
  `Ga4.PageViewsSpec` (ga4.py:26-42), `Ga4Bck.BackupSpec` (ga4_bck.py:19-35),
  `Ga4Session.SessionSpec` (ga4-session.py:31-51) and
  `Ga4Session.ConversionsSpec` (ga4-session.py:70-96).
- `Pagination.AppendRows` is the inner loop `for row in response.rows:
  data.append(...)`. `Fetch` calls it once per page.

The reporting service (`client.run_report`) is a parameter
`server: Request -> Page` of each report call. The loop is sure to end when
the row counts the service reports are bounded. So each call takes a ghost
`bound` and requires that the row count the service reports for the report
and page size is at most `bound` at every offset. That includes offsets the
loop never requests: offsets past the stop point and offsets that are not
multiples of `limit`. The bound decides nothing about the result
(`RequestsIgnoreBound`). The requests
issued are returned as a ghost out-parameter, which records the calls made.

The stop test is `offset > row_count`, strictly greater. It is easy to read
it as taking `row_count / page_size` requests when the row count is an exact
multiple of the page size. The code in fact takes one more request, which reads
an empty page. With 10 000 rows and a page size of 10 000 it issues two
requests. `ConstantCountRequests` and `RequestCountExamples` state the code's
rule, `R / limit + 1`.

## Model

| member | source | states |
|---|---|---|
| `Pagination.Flatten` | ga4.py:46-47 | a flattened row has one value per dimension and metric: the dimension values come first, verbatim and in order, and the metric values follow, verbatim |
| `Pagination.FlattenRows` | ga4.py:44-48 | flattening a page keeps its row count and order: entry i is row i flattened |
| `Pagination.EvenlySpacedIncreasing` | ga4.py:24-49 | the closed-form request list has strictly increasing offsets, and request i's offset divided by the page size is i: every offset is a multiple of the page size, with no gap and no repeat |
| `Pagination.AppendRows` | ga4.py:44-48 | appending a page puts its flattened rows, in the order received, after the existing table, which is left unchanged |
| `Pagination.Fetch` | ga4.py:22-52 | the loop issues exactly the requests `Requests` gives from offset 0, with at least one request; request i is at offset i·limit with the same page size and body; the result is the in-order concatenation of the flattened pages (`Collect`) |
| `Pagination.RequestsAtOffsets` | ga4.py:24-49 | requests go out at offsets offset, offset + limit, offset + 2·limit, … with no gap and no repeat, each with the same body and page size, and there is always at least one |
| `Pagination.RequestsStopRule` | ga4.py:49-51 | the test "next offset > reported row count" holds for the last request and for no earlier one (both directions) |
| `Pagination.RequestsIgnoreBound` | ga4_bck.py:42-44 | the termination bound on the row counts does not change which requests are issued |
| `Pagination.ConstantCountRequests` | ga4-session.py:58-60 | with a row count R reported the same on every page, the requests are exactly R / limit + 1, at offsets 0, limit, …, (R / limit)·limit |
| `Pagination.ConstantCountTable` | ga4-session.py:53-60 | with a row count R reported the same on every page, the accumulated table, for any termination bound, is the concatenation of the flattened pages at offsets 0, limit, …, (R / limit)·limit |
| `Pagination.RequestCountExamples` | ga4-session.py:29-60 | at page size 10 000: row count 0 gives one request, 10 000 gives two (offsets 0 and 10 000), 25 000 gives three |
| `Pagination.CollectConcat` | ga4-session.py:53-57 | the table of two request batches is the first batch's table followed by the second's: pages are concatenated in request order |
| `Pagination.AppendOnly` | ga4-session.py:54 | what the first k pages contributed is a prefix of the final table: later pages never change or remove earlier rows |
| `Pagination.EmptyPageAddsNothing` | ga4.py:44-49 | a page with no rows leaves the table unchanged |
| `Pagination.CollectWidth` | ga4-session.py:53-57 | when every page's rows match the declared shape, every table row has one value per declared dimension and metric |
| `Ga4.GA4Report.constructor` | ga4.py:11-20 | stores the dealer name and property; the page size is 10 000 |
| `Ga4.GA4Report.RunReport` | ga4.py:22-52 | the page-views report: requests at offsets i·10 000 with page size 10 000, the table is the concatenation of the flattened pages, and with conforming pages every row has width 3 (pagePath, date, screenPageViews) |
| `Ga4Bck.GA4Report.constructor` | ga4_bck.py:10-13 | stores the dealer name; the page size is 10 000 |
| `Ga4Bck.GA4Report.RunReport` | ga4_bck.py:15-45 | requests at offsets i·10 000 with page size 10 000 and the hard-coded property; the table is the concatenation of the flattened pages, in order |
| `Ga4Session.GA4Report.constructor` | ga4-session.py:12-22 | stores the dealer name and property; the page size is 10 000 |
| `Ga4Session.GA4Report.RunReportSession` | ga4-session.py:24-61 | the session report: requests at offsets i·10 000 with page size 10 000, the table is the concatenation of the flattened pages, and with conforming pages every row has width 4 (sessionSourceMedium, pagePath, date, screenPageViews) |
| `Ga4Session.GA4Report.RunReportConversions` | ga4-session.py:63-106 | the conversions report: the same loop, and with conforming pages every row has width 5 (eventName, isKeyEvent, pagePath, date, eventCount) |

## Left out

- Credential loading and construction of the API client: these are calls into the Google auth and client libraries. The client is the `server` parameter of each report call.
- Network, quota and authentication errors: the source does not handle them, and they propagate unchanged. Only the success path is modelled.
- The meaning of the request body: the PARTIAL_REGEXP filter, the relative dates and the sort keys are interpreted by the service. They are kept as opaque constants in `ReportSpec`, and no regex matching or sorting is modelled.
- `pd.DataFrame(...)` and `to_csv`: library-side table building and CSV writing. The result is modelled as `seq<seq<string>>`.
- Module-level script code (hard-coded dealer and property, the calls and file paths): this is configuration, not logic.
- Ga4Bck.GA4Report.RunReport: promises no row width. Its dimension list holds the integer literal 3 where a named dimension is expected (ga4_bck.py:21), and the client library would probably reject that request. The model treats the request as accepted and models only the success path, with each row stated only as the service's row flattened.
- Pagination.Fetch: says nothing when the reported row counts are unbounded. With such a service the source loop may never end, and the model requires a bound so that it terminates.
- Offsets and row counts are unbounded integers. The API's 64-bit range is not modelled, because offsets stay far below it at this page size.
- The request body's `limit` is only the page size asked for. That the service returns at most `limit` rows per page is service behaviour and is not assumed.
