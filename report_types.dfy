/**
 * The values exchanged with the analytics reporting service: the report
 * description sent with every request, one page of the response, and a
 * response row. Row values are kept as the service returns them, as text.
 */
module ReportTypes {

  /** One entry of a request's dimension list. The reporting library expects
      a named dimension; ga4_bck.py passes a bare integer literal in one
      position, which `BareInt` records without interpreting it. */
  datatype Dimension = Dimension(name: string) | BareInt(value: int)

  /** A string filter on one field; the match type and pattern are
      interpreted by the service, never locally. */
  datatype Filter = Filter(fieldName: string, matchType: string, pattern: string)

  /** An inclusive date range given as two date expressions ("30daysAgo", "today"). */
  datatype DateRange = DateRange(startDate: string, endDate: string)

  /** Everything a report request carries apart from its page window:
      the property resource name, the declared dimensions and metrics,
      the sort keys (dimension names), the date range and the filter. */
  datatype ReportSpec = ReportSpec(
    property: string,
    dimensions: seq<Dimension>,
    metrics: seq<string>,
    orderBys: seq<string>,
    dateRange: DateRange,
    filter: Filter)

  /** One paginated request: the report description plus the page window. */
  datatype Request = Request(spec: ReportSpec, limit: nat, offset: nat)

  /** One response row: its dimension values followed by its metric values. */
  datatype Row = Row(dims: seq<string>, mets: seq<string>)

  /** One page of the response: the rows of this window and the number of
      rows of the whole, unpaginated result as the service reports it. */
  datatype Page = Page(rows: seq<Row>, rowCount: nat)

  /** The accumulated result: one flat sequence of values per row. */
  type Table = seq<seq<string>>

  /** The filter all four reports use: a partial regular expression ".+" on pagePath. */
  const NonEmptyPagePath := Filter("pagePath", "PARTIAL_REGEXP", ".+")

  /** The date range all four reports use. */
  const Last30Days := DateRange("30daysAgo", "today")

  /** A row has the shape the spec declares: one value per declared
      dimension and one per declared metric. */
  predicate RowConforms(row: Row, spec: ReportSpec)
  {
    |row.dims| == |spec.dimensions| && |row.mets| == |spec.metrics|
  }

  /** Every row of the page has the declared shape. */
  predicate PageConforms(page: Page, spec: ReportSpec)
  {
    forall i :: 0 <= i < |page.rows| ==> RowConforms(page.rows[i], spec)
  }
}
