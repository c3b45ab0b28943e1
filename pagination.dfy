/**
 * The paginated fetch-and-accumulate loop shared by every report of the
 * repository: request a page of at most `limit` rows at the current offset,
 * append each row's dimension values followed by its metric values, advance
 * the offset by `limit`, and stop once the offset exceeds the total row count
 * reported on the page just received.
 *
 * The reporting service is a parameter `server: Request -> Page`. The loop
 * is sure to terminate when every row count the service reports for this
 * report and page size, at any offset, is at most the ghost parameter
 * `bound`; the bound plays no part in what is computed (RequestsIgnoreBound).
 */
module Pagination {
  import opened ReportTypes

  /** One response row as one flat sequence of values: the dimension values
      in declared order, then the metric values, copied verbatim. */
  function Flatten(row: Row): (values: seq<string>)
    ensures |values| == |row.dims| + |row.mets|
    ensures values[..|row.dims|] == row.dims
    ensures values[|row.dims|..] == row.mets
  {
    row.dims + row.mets
  }

  /** The rows of one page, flattened one by one, in the order received. */
  function FlattenRows(rows: seq<Row>): (table: Table)
    ensures |table| == |rows|
    ensures forall i :: 0 <= i < |rows| ==> table[i] == Flatten(rows[i])
  {
    if rows == [] then []
    else FlattenRows(rows[..|rows| - 1]) + [Flatten(rows[|rows| - 1])]
  }

  /** Every row count the service reports for this report and page size is
      at most `bound`; this is what makes the loop terminate. */
  ghost predicate CountsBounded(server: Request -> Page, spec: ReportSpec, limit: nat, bound: nat)
  {
    forall offset: nat :: server(Request(spec, limit, offset)).rowCount <= bound
  }

  /** The requests the loop issues when it starts at `offset`: it always
      issues the one at `offset`, and goes on at `offset + limit` unless that
      offset exceeds the row count reported on the page just received. */
  ghost function Requests(server: Request -> Page, spec: ReportSpec, limit: nat, offset: nat, bound: nat): seq<Request>
    requires 0 < limit && offset <= bound
    requires CountsBounded(server, spec, limit, bound)
    decreases bound - offset
  {
    var request := Request(spec, limit, offset);
    if offset + limit > server(request).rowCount then [request]
    else [request] + Requests(server, spec, limit, offset + limit, bound)
  }

  /** The table accumulated from the responses to `requests`, in request
      order, each page's rows in the order received. */
  function Collect(server: Request -> Page, requests: seq<Request>): Table
  {
    if requests == [] then []
    else Collect(server, requests[..|requests| - 1]) + FlattenRows(server(requests[|requests| - 1]).rows)
  }

  /** `count` requests at offsets 0, limit, 2 * limit, ... */
  function EvenlySpaced(spec: ReportSpec, limit: nat, count: nat): (requests: seq<Request>)
    ensures |requests| == count
    ensures forall i :: 0 <= i < count ==> requests[i] == Request(spec, limit, i * limit)
  {
    seq(count, i requires 0 <= i => Request(spec, limit, i * limit))
  }

  /** Appends the rows of one page to the table, one flattened row at a time. */
  method AppendRows(data: Table, rows: seq<Row>) returns (result: Table)
    ensures result == data + FlattenRows(rows)
  {
    result := data;
    for i := 0 to |rows|
      invariant result == data + FlattenRows(rows[..i])
    {
      assert rows[..i + 1][..i] == rows[..i];
      result := result + [Flatten(rows[i])];
    }
    assert rows[..|rows|] == rows;
  }

  /** The loop itself. `requests` records the calls made to the service. */
  method Fetch(spec: ReportSpec, limit: nat, server: Request -> Page, ghost bound: nat)
    returns (data: Table, ghost requests: seq<Request>)
    requires 0 < limit
    requires CountsBounded(server, spec, limit, bound)
    ensures requests == Requests(server, spec, limit, 0, bound)
    ensures data == Collect(server, Requests(server, spec, limit, 0, bound))
    ensures |requests| >= 1
    ensures forall i :: 0 <= i < |requests| ==> requests[i] == Request(spec, limit, i * limit)
  {
    data := [];
    requests := [];
    var offset: nat := 0;
    while true
      invariant offset <= bound
      invariant requests + Requests(server, spec, limit, offset, bound) == Requests(server, spec, limit, 0, bound)
      invariant data == Collect(server, requests)
      decreases bound - offset
    {
      var request := Request(spec, limit, offset);
      var response := server(request);
      data := AppendRows(data, response.rows);
      RequestsStep(server, spec, limit, offset, bound);
      CollectSnoc(server, requests, request);
      requests := requests + [request];
      offset := offset + limit;
      if offset > response.rowCount {
        break;
      }
    }
    RequestsAtOffsets(server, spec, limit, 0, bound);
  }

  /** One turn of the loop: the request at `offset`, then, unless the loop
      stops, the requests from `offset + limit`. */
  lemma RequestsStep(server: Request -> Page, spec: ReportSpec, limit: nat, offset: nat, bound: nat)
    requires 0 < limit && offset <= bound
    requires CountsBounded(server, spec, limit, bound)
    ensures var request := Request(spec, limit, offset);
      if offset + limit > server(request).rowCount
      then Requests(server, spec, limit, offset, bound) == [request]
      else offset + limit <= bound &&
           Requests(server, spec, limit, offset, bound) == [request] + Requests(server, spec, limit, offset + limit, bound)
  {
  }

  /** Receiving one more page appends that page's flattened rows. */
  lemma CollectSnoc(server: Request -> Page, requests: seq<Request>, request: Request)
    ensures Collect(server, requests + [request]) == Collect(server, requests) + FlattenRows(server(request).rows)
  {
    assert (requests + [request])[..|requests|] == requests;
  }

  /** Requests go out at offsets offset, offset + limit, offset + 2 * limit, ...
      with no gap and no repeat; every one carries the same report and the
      same page size, and there is at least one. */
  lemma {:induction false} RequestsAtOffsets(server: Request -> Page, spec: ReportSpec, limit: nat, offset: nat, bound: nat)
    requires 0 < limit && offset <= bound
    requires CountsBounded(server, spec, limit, bound)
    ensures |Requests(server, spec, limit, offset, bound)| >= 1
    ensures forall i :: 0 <= i < |Requests(server, spec, limit, offset, bound)| ==>
              Requests(server, spec, limit, offset, bound)[i] == Request(spec, limit, offset + i * limit)
    decreases bound - offset
  {
    var request := Request(spec, limit, offset);
    if offset + limit <= server(request).rowCount {
      RequestsAtOffsets(server, spec, limit, offset + limit, bound);
      var rest := Requests(server, spec, limit, offset + limit, bound);
      forall i | 1 <= i < 1 + |rest|
        ensures rest[i - 1] == Request(spec, limit, offset + i * limit)
      {
        assert offset + limit + (i - 1) * limit == offset + i * limit;
      }
    }
  }

  /** The loop stops exactly after the first page whose next offset exceeds
      the row count reported on that page: that holds of the last request
      and of no earlier one. */
  lemma {:induction false} RequestsStopRule(server: Request -> Page, spec: ReportSpec, limit: nat, offset: nat, bound: nat)
    requires 0 < limit && offset <= bound
    requires CountsBounded(server, spec, limit, bound)
    ensures var requests := Requests(server, spec, limit, offset, bound);
      forall i :: 0 <= i < |requests| ==>
        (requests[i].offset + limit > server(requests[i]).rowCount <==> i == |requests| - 1)
    decreases bound - offset
  {
    var request := Request(spec, limit, offset);
    if offset + limit <= server(request).rowCount {
      RequestsStopRule(server, spec, limit, offset + limit, bound);
      RequestsAtOffsets(server, spec, limit, offset + limit, bound);
    }
  }

  /** The bound on the row counts only proves termination: any two valid
      bounds give the same requests. */
  lemma {:induction false} RequestsIgnoreBound(server: Request -> Page, spec: ReportSpec, limit: nat, offset: nat, bound: nat, bound': nat)
    requires 0 < limit && offset <= bound && offset <= bound'
    requires CountsBounded(server, spec, limit, bound)
    requires CountsBounded(server, spec, limit, bound')
    ensures Requests(server, spec, limit, offset, bound) == Requests(server, spec, limit, offset, bound')
    decreases bound - offset
  {
    var request := Request(spec, limit, offset);
    if offset + limit <= server(request).rowCount {
      RequestsIgnoreBound(server, spec, limit, offset + limit, bound, bound');
    }
  }

  lemma MulMonotone(a: nat, b: nat, l: nat)
    requires a <= b
    ensures a * l <= b * l
  {
    assert b * l == a * l + (b - a) * l;
  }

  /** If q * l <= r < (q + 1) * l then q is the quotient r / l. */
  lemma DivBetween(r: nat, l: nat, q: nat)
    requires 0 < l && q * l <= r < q * l + l
    ensures r / l == q
  {
    var d, m := r / l, r % l;
    assert r == d * l + m && m < l;
    if d < q {
      MulMonotone(d + 1, q, l);
      assert false;
    } else if d > q {
      MulMonotone(q + 1, d, l);
      assert false;
    }
  }

  /** With a row count R that the service reports the same on every page,
      exactly R / limit + 1 requests are issued, at offsets 0, limit, ...,
      (R / limit) * limit. */
  lemma ConstantCountRequests(server: Request -> Page, spec: ReportSpec, limit: nat, rowCount: nat)
    requires 0 < limit
    requires forall offset: nat :: server(Request(spec, limit, offset)).rowCount == rowCount
    ensures CountsBounded(server, spec, limit, rowCount)
    ensures Requests(server, spec, limit, 0, rowCount) == EvenlySpaced(spec, limit, rowCount / limit + 1)
  {
    var requests := Requests(server, spec, limit, 0, rowCount);
    RequestsAtOffsets(server, spec, limit, 0, rowCount);
    RequestsStopRule(server, spec, limit, 0, rowCount);
    var n := |requests|;
    assert (n - 1) * limit + limit > rowCount by {
      assert requests[n - 1].offset == (n - 1) * limit;
    }
    if n >= 2 {
      assert requests[n - 2].offset == (n - 2) * limit;
      assert (n - 2) * limit + limit <= rowCount;
      assert (n - 2) * limit + limit == (n - 1) * limit;
    }
    DivBetween(rowCount, limit, n - 1);
  }

  /** Evenly spaced requests have strictly increasing offsets, and request
      i's offset divided by the page size is i: every offset is a multiple
      of the page size and none is skipped or repeated. */
  lemma EvenlySpacedIncreasing(spec: ReportSpec, limit: nat, count: nat)
    requires 0 < limit
    ensures forall i, j :: 0 <= i < j < count ==>
              EvenlySpaced(spec, limit, count)[i].offset < EvenlySpaced(spec, limit, count)[j].offset
    ensures forall i :: 0 <= i < count ==> EvenlySpaced(spec, limit, count)[i].offset / limit == i
  {
    var requests := EvenlySpaced(spec, limit, count);
    forall i, j | 0 <= i < j < count
      ensures requests[i].offset < requests[j].offset
    {
      MulMonotone(i + 1, j, limit);
      assert (i + 1) * limit == i * limit + limit;
    }
    forall i | 0 <= i < count
      ensures requests[i].offset / limit == i
    {
      DivBetween(i * limit, limit, i);
    }
  }

  /** With a row count R reported the same on every page, the table the loop
      accumulates, whatever termination bound is used, is the concatenation
      of the flattened pages at offsets 0, limit, ..., (R / limit) * limit. */
  lemma ConstantCountTable(server: Request -> Page, spec: ReportSpec, limit: nat, rowCount: nat, bound: nat)
    requires 0 < limit
    requires forall offset: nat :: server(Request(spec, limit, offset)).rowCount == rowCount
    requires CountsBounded(server, spec, limit, bound)
    ensures Collect(server, Requests(server, spec, limit, 0, bound))
         == Collect(server, EvenlySpaced(spec, limit, rowCount / limit + 1))
  {
    ConstantCountRequests(server, spec, limit, rowCount);
    RequestsIgnoreBound(server, spec, limit, 0, bound, rowCount);
  }

  /** The request counts for a page size of 10 000: a row count of 0 takes
      one request, 10 000 takes two (the second at offset 10 000), and
      25 000 takes three. */
  lemma RequestCountExamples(server: Request -> Page, spec: ReportSpec, rowCount: nat)
    requires forall offset: nat :: server(Request(spec, 10_000, offset)).rowCount == rowCount
    ensures CountsBounded(server, spec, 10_000, rowCount)
    ensures rowCount == 0 ==> Requests(server, spec, 10_000, 0, rowCount) == [Request(spec, 10_000, 0)]
    ensures rowCount == 10_000 ==>
              Requests(server, spec, 10_000, 0, rowCount) == [Request(spec, 10_000, 0), Request(spec, 10_000, 10_000)]
    ensures rowCount == 25_000 ==> |Requests(server, spec, 10_000, 0, rowCount)| == 3
  {
    ConstantCountRequests(server, spec, 10_000, rowCount);
  }

  /** Accumulation distributes over request sequences: the pages of a later
      batch of requests are appended after those of an earlier one. */
  lemma {:induction false} CollectConcat(server: Request -> Page, first: seq<Request>, second: seq<Request>)
    ensures Collect(server, first + second) == Collect(server, first) + Collect(server, second)
    decreases |second|
  {
    if second != [] {
      var last := second[|second| - 1];
      var init := second[..|second| - 1];
      assert second == init + [last];
      assert (first + second)[..|first + second| - 1] == first + init;
      CollectConcat(server, first, init);
    } else {
      assert first + second == first;
    }
  }

  /** The accumulated table is append-only: what the first k pages
      contributed is a prefix of the final table. */
  lemma AppendOnly(server: Request -> Page, requests: seq<Request>, k: nat)
    requires k <= |requests|
    ensures Collect(server, requests[..k]) <= Collect(server, requests)
  {
    assert requests == requests[..k] + requests[k..];
    CollectConcat(server, requests[..k], requests[k..]);
  }

  /** A page without rows adds nothing to the table. */
  lemma EmptyPageAddsNothing(server: Request -> Page, requests: seq<Request>, k: nat)
    requires k < |requests| && server(requests[k]).rows == []
    ensures Collect(server, requests[..k + 1]) == Collect(server, requests[..k])
  {
    assert requests[..k + 1][..k] == requests[..k];
  }

  /** When every page has the declared shape, every row of the table has
      one value per declared dimension and metric. */
  lemma {:induction false} CollectWidth(server: Request -> Page, requests: seq<Request>, spec: ReportSpec)
    requires forall i :: 0 <= i < |requests| ==> PageConforms(server(requests[i]), spec)
    ensures forall j :: 0 <= j < |Collect(server, requests)| ==>
              |Collect(server, requests)[j]| == |spec.dimensions| + |spec.metrics|
    decreases |requests|
  {
    if requests != [] {
      CollectWidth(server, requests[..|requests| - 1], spec);
    }
  }
}
