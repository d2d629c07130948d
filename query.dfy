/**
 * The query pipelines of the job application repository, as functions over
 * the rows of the table: the status and search filters, the ordering, the
 * Skip/Take paging, the filtered scan with its total count, and the
 * group-by-status count.
 */
module Query {
  import opened Wrappers
  import opened Domain
  import Text

  function Min(a: int, b: int): int { if a <= b then a else b }
  function Max(a: int, b: int): int { if a >= b then a else b }

  // ---------------------------------------------------------------- filters

  predicate MatchesStatus(a: JobApplication, status: Option<Status>) {
    status.None? || a.status == status.value
  }

  /** The search predicate for an already lower-cased term; a record without notes cannot match through its notes. */
  predicate MatchesSearch(a: JobApplication, loweredTerm: string) {
    || Text.Contains(Text.ToLower(a.companyName), loweredTerm)
    || Text.Contains(Text.ToLower(a.position), loweredTerm)
    || (a.notes.Some? && Text.Contains(Text.ToLower(a.notes.value), loweredTerm))
  }

  /** Both optional filters: the status filter when a status is given, the search filter unless the term is null or blank. */
  predicate PassesFilters(a: JobApplication, status: Option<Status>, searchTerm: Option<string>) {
    && MatchesStatus(a, status)
    && (Text.IsNullOrWhiteSpace(searchTerm) || MatchesSearch(a, Text.ToLower(searchTerm.value)))
  }

  /** The filtered query, keeping the rows' order. */
  function Where(rows: seq<JobApplication>, status: Option<Status>, searchTerm: Option<string>): (r: seq<JobApplication>)
    ensures forall x :: x in r ==> PassesFilters(x, status, searchTerm)
    ensures forall x :: multiset(r)[x] == if PassesFilters(x, status, searchTerm) then multiset(rows)[x] else 0
  {
    if rows == [] then []
    else
      assert rows == [rows[0]] + rows[1..];
      (if PassesFilters(rows[0], status, searchTerm) then [rows[0]] else []) + Where(rows[1..], status, searchTerm)
  }

  /**
   * A non-blank term matches exactly when its lower-cased form occurs in the
   * lower-cased company name, position or (present) notes. The term is not trimmed.
   */
  lemma {:induction false} SearchIsSubstringMatch(a: JobApplication, term: string)
    requires !Text.IsNullOrWhiteSpace(Some(term))
    ensures PassesFilters(a, None, Some(term)) <==>
      || OccursIn(Text.ToLower(a.companyName), Text.ToLower(term))
      || OccursIn(Text.ToLower(a.position), Text.ToLower(term))
      || (a.notes.Some? && OccursIn(Text.ToLower(a.notes.value), Text.ToLower(term)))
  {
    var t := Text.ToLower(term);
    assert PassesFilters(a, None, Some(term)) == MatchesSearch(a, t);
    Text.ContainsIffOccurs(Text.ToLower(a.companyName), t);
    Text.ContainsIffOccurs(Text.ToLower(a.position), t);
    if a.notes.Some? {
      Text.ContainsIffOccurs(Text.ToLower(a.notes.value), t);
    }
  }

  /** `t` is a substring of `s`. */
  ghost predicate OccursIn(s: string, t: string) {
    exists i :: Text.OccursAt(s, t, i)
  }

  /** The search is case-insensitive in the term: lower-casing it first changes no outcome. */
  lemma {:induction false} SearchIgnoresTermCase(a: JobApplication, status: Option<Status>, term: string)
    ensures PassesFilters(a, status, Some(term)) == PassesFilters(a, status, Some(Text.ToLower(term)))
  {
    Text.ToLowerIdempotent(term);
    var lowered := Text.ToLower(term);
    assert forall i :: 0 <= i < |term| ==> (Text.IsWhiteSpace(term[i]) <==> Text.IsWhiteSpace(lowered[i]));
  }

  // --------------------------------------------------------------- ordering

  /** DateApplied descending, then CompanyName ascending. */
  predicate OrderedBefore(a: JobApplication, b: JobApplication) {
    || a.dateApplied > b.dateApplied
    || (a.dateApplied == b.dateApplied && Text.OrdinalLeq(a.companyName, b.companyName))
  }

  lemma OrderedTotal(a: JobApplication, b: JobApplication)
    ensures OrderedBefore(a, b) || OrderedBefore(b, a)
  {
    Text.OrdinalTotal(a.companyName, b.companyName);
  }

  lemma OrderedTransitive(a: JobApplication, b: JobApplication, c: JobApplication)
    requires OrderedBefore(a, b) && OrderedBefore(b, c)
    ensures OrderedBefore(a, c)
  {
    if a.dateApplied == b.dateApplied == c.dateApplied {
      Text.OrdinalTransitive(a.companyName, b.companyName, c.companyName);
    }
  }

  predicate Sorted(s: seq<JobApplication>) {
    forall i, j :: 0 <= i < j < |s| ==> OrderedBefore(s[i], s[j])
  }

  lemma {:induction false} ConsSorted(h: JobApplication, t: seq<JobApplication>)
    requires Sorted(t)
    requires forall y :: y in t ==> OrderedBefore(h, y)
    ensures Sorted([h] + t)
  {
    var r := [h] + t;
    forall i, j | 0 <= i < j < |r| ensures OrderedBefore(r[i], r[j]) {
      assert r[j] == t[j - 1];
      if i > 0 {
        assert r[i] == t[i - 1];
      }
    }
  }

  lemma {:induction false} HeadBeforeAll(s: seq<JobApplication>)
    requires Sorted(s) && s != []
    ensures forall y :: y in s ==> OrderedBefore(s[0], y)
  {
    forall y | y in s ensures OrderedBefore(s[0], y) {
      var j :| 0 <= j < |s| && s[j] == y;
      if j == 0 {
        Text.OrdinalTotal(y.companyName, y.companyName);
      }
    }
  }

  /** Inserts `x` into a sorted sequence, before the first element it may precede (so that earlier rows stay first among equals). */
  function Insert(x: JobApplication, s: seq<JobApplication>): (r: seq<JobApplication>)
    requires Sorted(s)
    ensures Sorted(r)
    ensures multiset(r) == multiset(s) + multiset{x}
  {
    if s == [] then [x]
    else if OrderedBefore(x, s[0]) then
      HeadBeforeAll(s);
      assert forall y :: y in s ==> OrderedBefore(x, y) by {
        forall y | y in s ensures OrderedBefore(x, y) {
          OrderedTransitive(x, s[0], y);
        }
      }
      ConsSorted(x, s);
      [x] + s
    else
      OrderedTotal(x, s[0]);
      HeadBeforeAll(s);
      assert s == [s[0]] + s[1..];
      var t := Insert(x, s[1..]);
      assert forall y :: y in t ==> OrderedBefore(s[0], y) by {
        forall y | y in t ensures OrderedBefore(s[0], y) {
          assert y in multiset(t);
          assert y == x || y in s[1..];
        }
      }
      ConsSorted(s[0], t);
      [s[0]] + t
  }

  /** OrderByDescending(DateApplied).ThenBy(CompanyName): a sorted permutation of the input. */
  function SortApplications(s: seq<JobApplication>): (r: seq<JobApplication>)
    ensures Sorted(r)
    ensures multiset(r) == multiset(s)
  {
    if s == [] then []
    else
      assert s == [s[0]] + s[1..];
      Insert(s[0], SortApplications(s[1..]))
  }

  // ----------------------------------------------------------------- paging

  /** Enumerable.Skip: a count of zero or less skips nothing. */
  function Skip<T>(s: seq<T>, n: int): (r: seq<T>)
    ensures |r| == |s| - Min(Max(n, 0), |s|)
    ensures forall k :: 0 <= k < |r| ==> r[k] == s[Min(Max(n, 0), |s|) + k]
  {
    if n <= 0 then s else if n >= |s| then [] else s[n..]
  }

  /** Enumerable.Take: at most `n` leading elements. */
  function Take<T>(s: seq<T>, n: int): (r: seq<T>)
    ensures |r| == Min(Max(n, 0), |s|)
    ensures forall k :: 0 <= k < |r| ==> r[k] == s[k]
  {
    if n <= 0 then [] else if n >= |s| then s else s[..n]
  }

  /** The number of rows skipped before page `pageNumber`, computed exactly. */
  function SkipCount(pageNumber: int, pageSize: int): (n: int)
    ensures pageNumber >= 1 && pageSize >= 0 ==> n >= 0
  {
    (pageNumber - 1) * pageSize
  }

  /** Skip((pageNumber - 1) * pageSize).Take(pageSize), with the product computed exactly. */
  function Page<T>(s: seq<T>, pageNumber: int, pageSize: int): (r: seq<T>)
    ensures pageNumber >= 1 && pageSize >= 1 ==>
      |r| == Min(pageSize, Max(0, |s| - SkipCount(pageNumber, pageSize)))
    ensures pageNumber >= 1 && pageSize >= 1 ==>
      forall k :: 0 <= k < |r| ==> r[k] == s[SkipCount(pageNumber, pageSize) + k]
  {
    var skip := SkipCount(pageNumber, pageSize);
    Take(Skip(s, skip), pageSize)
  }

  /** A slice of a sorted sequence is sorted, and holds only elements of it. */
  lemma {:induction false} SliceOfSorted(s: seq<JobApplication>, skip: int, take: int)
    requires Sorted(s)
    ensures Sorted(Take(Skip(s, skip), take))
    ensures forall x :: x in Take(Skip(s, skip), take) ==> x in s
  {
    var skipped := Skip(s, skip);
    var d := Min(Max(skip, 0), |s|);
    var r := Take(skipped, take);
    forall i, j | 0 <= i < j < |r| ensures OrderedBefore(r[i], r[j]) {
      assert r[i] == skipped[i] == s[d + i];
      assert r[j] == skipped[j] == s[d + j];
    }
    forall x | x in r ensures x in s {
      var k :| 0 <= k < |r| && r[k] == x;
      assert skipped[k] == s[d + k];
    }
  }

  // ------------------------------------------------------------------- scan

  datatype ScanResult = ScanResult(applications: seq<JobApplication>, totalCount: nat)

  /**
   * GetApplicationsAsync: filter, count the matches before paging, order the
   * matches, then cut out the requested page.
   */
  function Scan(rows: seq<JobApplication>, pageNumber: int, pageSize: int,
                status: Option<Status>, searchTerm: Option<string>): (r: ScanResult)
    ensures r.totalCount == |Where(rows, status, searchTerm)|
    ensures forall x :: x in r.applications ==> x in rows && PassesFilters(x, status, searchTerm)
    ensures Sorted(r.applications)
    ensures pageNumber >= 1 && pageSize >= 1 ==>
      |r.applications| == Min(pageSize, Max(0, r.totalCount - SkipCount(pageNumber, pageSize)))
    ensures pageNumber >= 1 && pageSize >= 1 ==>
      forall k :: 0 <= k < |r.applications| ==>
        var ordered := SortApplications(Where(rows, status, searchTerm));
        SkipCount(pageNumber, pageSize) + k < |ordered| &&
        r.applications[k] == ordered[SkipCount(pageNumber, pageSize) + k]
  {
    var matching := Where(rows, status, searchTerm);
    var ordered := SortApplications(matching);
    OrderedMatches(rows, status, searchTerm);
    SliceOfSorted(ordered, SkipCount(pageNumber, pageSize), pageSize);
    ScanResult(Page(ordered, pageNumber, pageSize), |matching|)
  }

  /** The ordered matches are as many as the matches, and each is a row that passes the filters. */
  lemma OrderedMatches(rows: seq<JobApplication>, status: Option<Status>, searchTerm: Option<string>)
    ensures |SortApplications(Where(rows, status, searchTerm))| == |Where(rows, status, searchTerm)|
    ensures forall x :: x in SortApplications(Where(rows, status, searchTerm)) ==>
      x in rows && PassesFilters(x, status, searchTerm)
  {
    var matching := Where(rows, status, searchTerm);
    var ordered := SortApplications(matching);
    assert |ordered| == |multiset(ordered)| == |multiset(matching)| == |matching|;
    forall x | x in ordered ensures x in rows && PassesFilters(x, status, searchTerm) {
      assert x in multiset(ordered);
      assert x in multiset(matching);
      assert x in multiset(rows);
    }
  }

  /** GetAllAsync orders by DateApplied descending; the scan's order refines it. */
  lemma SortedIsByDateDescending(s: seq<JobApplication>)
    requires Sorted(s)
    ensures forall i, j :: 0 <= i < j < |s| ==> s[i].dateApplied >= s[j].dateApplied
  {
  }

  // --------------------------------------------------------- status counting

  const AllStatuses: set<Status> := {Applied, Interview, Offer, Rejected}

  /** The status enumeration is closed: every status is one of the four. */
  lemma AllStatusesCovers()
    ensures forall s: Status :: s in AllStatuses
  {
    forall s: Status ensures s in AllStatuses {
      match s
      case Applied =>
      case Interview =>
      case Offer =>
      case Rejected =>
    }
  }

  /** The number of rows with status `s`. */
  function CountStatus(rows: seq<JobApplication>, s: Status): (n: nat)
    ensures n <= |rows|
    ensures n > 0 <==> exists x :: x in rows && x.status == s
  {
    if rows == [] then 0
    else
      assert forall x :: x in rows ==> x == rows[0] || x in rows[1..];
      (if rows[0].status == s then 1 else 0) + CountStatus(rows[1..], s)
  }

  /** With a status filter and no search, the filtered set is exactly the rows with that status. */
  lemma {:induction false} StatusFilterCountsStatus(rows: seq<JobApplication>, s: Status)
    ensures |Where(rows, Some(s), None)| == CountStatus(rows, s)
  {
    if rows != [] {
      StatusFilterCountsStatus(rows[1..], s);
    }
  }

  /** GroupBy(Status).Count(): one entry per status that occurs, holding its count. */
  function CountsByStatus(rows: seq<JobApplication>): (m: map<Status, nat>)
    ensures forall s :: s in m <==> exists x :: x in rows && x.status == s
    ensures forall s :: s in m ==> m[s] == CountStatus(rows, s)
  {
    AllStatusesCovers();
    map s | s in AllStatuses && CountStatus(rows, s) > 0 :: CountStatus(rows, s)
  }

  /** Every row has exactly one status, so the four counts add up to the number of rows. */
  lemma {:induction false} CountsCoverRows(rows: seq<JobApplication>)
    ensures CountStatus(rows, Applied) + CountStatus(rows, Interview)
          + CountStatus(rows, Offer) + CountStatus(rows, Rejected) == |rows|
  {
    if rows != [] {
      CountsCoverRows(rows[1..]);
    }
  }

  // ------------------------------------------------ 32-bit skip computation

  const Int32Max: int := 0x7FFF_FFFF

  /** C#'s unchecked int arithmetic: the result reduced into [-2^31, 2^31). */
  function WrapInt32(x: int): (r: int)
    ensures -0x8000_0000 <= r <= Int32Max
    ensures (r - x) % 0x1_0000_0000 == 0
  {
    (x + 0x8000_0000) % 0x1_0000_0000 - 0x8000_0000
  }

  /** Paging as the repository computes it: the skip count is a 32-bit product that can wrap. */
  function PageAsWritten<T>(s: seq<T>, pageNumber: int, pageSize: int): seq<T> {
    Take(Skip(s, WrapInt32((pageNumber - 1) * pageSize)), pageSize)
  }

  /** Where the 32-bit skip count does not overflow, the repository's paging is the exact one. */
  lemma PageAsWrittenAgrees<T>(s: seq<T>, pageNumber: int, pageSize: int)
    requires 1 <= pageNumber && 1 <= pageSize && SkipCount(pageNumber, pageSize) <= Int32Max
    ensures PageAsWritten(s, pageNumber, pageSize) == Page(s, pageNumber, pageSize)
  {
    var n := SkipCount(pageNumber, pageSize);
    assert 0 <= n;
    assert WrapInt32(n) == n;
  }

  /**
   * Page 1073741825 of size 4 lies past the end of any table that fits in an
   * int, yet the skip count (1073741824 * 4 = 2^32) wraps to 0 and the
   * repository returns the first page instead of an empty one.
   */
  lemma OverflowedSkipReturnsFirstPage<T>(s: seq<T>)
    requires 0 < |s| <= Int32Max
    ensures Page(s, 1073741825, 4) == []
    ensures PageAsWritten(s, 1073741825, 4) == Page(s, 1, 4)
    ensures PageAsWritten(s, 1073741825, 4) != []
  {
    assert WrapInt32((1073741825 - 1) * 4) == 0;
  }
}
