/**
 * The pagination request and response shapes: the filter whose setters clamp
 * the page number and page size, and the response envelope with its page
 * count and its previous/next flags.
 */
module Paging {
  import opened Wrappers
  import opened Domain
  import Mapping
  import Query
  import opened Arithmetic

  const DefaultPageNumber: int := 1
  const DefaultPageSize: int := 10
  const MaxPageSize: int := 50

  datatype PaginationFilter = PaginationFilter(
    pageNumber: int,
    pageSize: int,
    status: Option<Status>,
    searchTerm: Option<string>)

  /** What the filter's setters guarantee of every filter object. */
  predicate ValidFilter(f: PaginationFilter) {
    f.pageNumber >= 1 && 1 <= f.pageSize <= MaxPageSize
  }

  /** The PageNumber setter: values below 1 become 1. */
  function ClampPageNumber(value: int): (r: int)
    ensures r >= 1
    ensures value >= 1 ==> r == value
    ensures value < 1 ==> r == 1
  {
    if value < 1 then 1 else value
  }

  /** The PageSize setter: values above 50 become 50, values below 1 become 1. */
  function ClampPageSize(value: int): (r: int)
    ensures 1 <= r <= MaxPageSize
    ensures 1 <= value <= MaxPageSize ==> r == value
    ensures value > MaxPageSize ==> r == MaxPageSize
    ensures value < 1 ==> r == 1
  {
    if value > MaxPageSize then MaxPageSize else if value < 1 then 1 else value
  }

  /** A filter built through the setters, as the controller builds it from the query string. */
  function NewPaginationFilter(pageNumber: int, pageSize: int, status: Option<Status>, searchTerm: Option<string>)
    : (f: PaginationFilter)
    ensures ValidFilter(f)
    ensures f.status == status && f.searchTerm == searchTerm
    ensures f.pageNumber == ClampPageNumber(pageNumber) && f.pageSize == ClampPageSize(pageSize)
  {
    PaginationFilter(ClampPageNumber(pageNumber), ClampPageSize(pageSize), status, searchTerm)
  }

  /** A filter left at its defaults. */
  function DefaultFilter(): (f: PaginationFilter)
    ensures ValidFilter(f)
  {
    PaginationFilter(DefaultPageNumber, DefaultPageSize, None, None)
  }

  datatype PaginatedResponse = PaginatedResponse(
    pageNumber: int,
    pageSize: int,
    totalCount: nat,
    totalPages: nat,
    items: seq<JobApplicationDto>)
  {
    predicate HasPreviousPage() {
      pageNumber > 1
    }

    predicate HasNextPage() {
      pageNumber < totalPages
    }
  }

  /** Math.Ceiling(n / (double)d) on non-negative integers. */
  function CeilDiv(n: nat, d: nat): (q: nat)
    requires d > 0
    ensures q * d >= n
    ensures n > 0 ==> (q - 1) * d < n
    ensures q == 0 <==> n == 0
  {
    var q := (n + d - 1) / d;
    var r := (n + d - 1) % d;
    assert q * d + r == n + d - 1 && 0 <= r < d;
    q
  }

  /** The DTOs of a page of records, in order. */
  function ToDtos(applications: seq<JobApplication>): (r: seq<JobApplicationDto>)
    ensures |r| == |applications|
    ensures forall i :: 0 <= i < |r| ==> r[i] == Mapping.ToDto(applications[i])
  {
    if applications == [] then [] else [Mapping.ToDto(applications[0])] + ToDtos(applications[1..])
  }

  /** The envelope around one page: the filter's paging echoed, the total count carried, the page count derived. */
  function BuildEnvelope(filter: PaginationFilter, applications: seq<JobApplication>, totalCount: nat)
    : (e: PaginatedResponse)
    requires ValidFilter(filter)
    ensures e.pageNumber == filter.pageNumber && e.pageSize == filter.pageSize
    ensures e.totalCount == totalCount
    ensures e.totalPages * e.pageSize >= totalCount
    ensures totalCount > 0 ==> (e.totalPages - 1) * e.pageSize < totalCount
    ensures e.totalPages == 0 <==> totalCount == 0
    ensures e.items == ToDtos(applications)
  {
    PaginatedResponse(filter.pageNumber, filter.pageSize, totalCount,
                      CeilDiv(totalCount, filter.pageSize), ToDtos(applications))
  }

  /** HasNextPage holds exactly when rows remain after the current page. */
  lemma {:induction false} HasNextPageIffMoreRows(filter: PaginationFilter, applications: seq<JobApplication>, totalCount: nat)
    requires ValidFilter(filter)
    ensures BuildEnvelope(filter, applications, totalCount).HasNextPage() <==>
            filter.pageNumber * filter.pageSize < totalCount
  {
    var e := BuildEnvelope(filter, applications, totalCount);
    var p, n, q := filter.pageNumber, filter.pageSize, e.totalPages;
    if p < q {
      assert p <= q - 1;
      MulMonotone(p, q - 1, n);
    } else if p * n < totalCount {
      MulMonotone(q, p, n);
    }
  }

  /** ceil(m / n) is the floor quotient, plus one when the division leaves a remainder. */
  lemma {:induction false} CeilDivIsQuotient(m: nat, n: nat)
    requires n > 0
    ensures CeilDiv(m, n) == m / n + (if m % n == 0 then 0 else 1)
  {
    var q, k, r := CeilDiv(m, n), m / n, m % n;
    assert m == k * n + r && 0 <= r < n;
    if r == 0 {
      if q > k {
        MulMonotone(k, q - 1, n);
      } else if q < k {
        MulMonotone(q, k - 1, n);
        MulSucc(k - 1, n);
      }
    } else {
      if q > k + 1 {
        MulMonotone(k + 1, q - 1, n);
        MulSucc(k, n);
      } else if q < k + 1 {
        MulMonotone(q, k, n);
      }
    }
  }

  /** Page `last` of size n starts at the row after (last - 1)·n; pinning that product keeps the length arithmetic linear. */
  lemma {:induction false} LastPageSkips(m: nat, n: nat)
    requires 1 <= n && m > 0
    ensures var last := CeilDiv(m, n);
      && Query.SkipCount(last, n) == m - (if m % n == 0 then n else m % n)
      && Query.SkipCount(last + 1, n) >= m
  {
    var last := CeilDiv(m, n);
    var k, r := m / n, m % n;
    CeilDivIsQuotient(m, n);
    assert m == k * n + r && 0 <= r < n;
    if r == 0 {
      assert last == k && k >= 1;
      MulSucc(k - 1, n);
      assert Query.SkipCount(last, n) == (k - 1) * n == m - n;
      assert Query.SkipCount(last + 1, n) == k * n == m;
    } else {
      assert last == k + 1;
      MulSucc(k, n);
      assert Query.SkipCount(last, n) == k * n == m - r;
      assert Query.SkipCount(last + 1, n) == (k + 1) * n == m - r + n;
    }
  }

  /**
   * The last page: with M matching rows and page size N, page ceil(M/N) holds
   * M mod N rows (N when N divides M).
   */
  lemma {:induction false} LastPageSize<T>(s: seq<T>, pageSize: nat)
    requires 1 <= pageSize && |s| > 0
    ensures |Query.Page(s, CeilDiv(|s|, pageSize), pageSize)| ==
            (if |s| % pageSize == 0 then pageSize else |s| % pageSize)
  {
    var last := CeilDiv(|s|, pageSize);
    LastPageSkips(|s|, pageSize);
    var left := if |s| % pageSize == 0 then pageSize else |s| % pageSize;
    assert 0 < left <= pageSize;
    assert |s| - Query.SkipCount(last, pageSize) == left;
    assert |Query.Page(s, last, pageSize)| == Query.Min(pageSize, Query.Max(0, left));
  }

  /** The page after the last one is empty. */
  lemma {:induction false} PastLastPageEmpty<T>(s: seq<T>, pageSize: nat)
    requires 1 <= pageSize && |s| > 0
    ensures Query.Page(s, CeilDiv(|s|, pageSize) + 1, pageSize) == []
  {
    var last := CeilDiv(|s|, pageSize);
    LastPageSkips(|s|, pageSize);
    assert |s| - Query.SkipCount(last + 1, pageSize) <= 0;
    assert |Query.Page(s, last + 1, pageSize)| == 0;
  }

  /** The default listing is page 1 of size 10, which never has a previous page. */
  lemma {:induction false} DefaultListingHasNoPreviousPage(applications: seq<JobApplication>, totalCount: nat)
    ensures var e := BuildEnvelope(DefaultFilter(), applications, totalCount);
      && e.pageNumber == 1 && e.pageSize == 10
      && !e.HasPreviousPage()
      && (e.HasNextPage() <==> totalCount > 10)
  {
    HasNextPageIffMoreRows(DefaultFilter(), applications, totalCount);
  }
}
