# Job Application Tracker — verified model of the data and service core

This project models the back end of a small job-application tracker:
- the domain record: a job application with a closed status of Applied, Interview, Offer or Rejected;
- the repository that stores, filters, orders, pages and counts these records;
- the service that turns repository results into DTOs, a paging envelope and a statistics summary;
- the mapping rules that decide which fields each operation copies, ignores or stamps.

Layout:

- `domain.dfy`: `Wrappers` (Option, Result) and `Domain` (the entity, the status enumeration, the writable fields, the DTO).
- `text.dfy`: `Text`, the string primitives the queries use:
  - `String.IsNullOrWhiteSpace`;
  - lower-casing as an ASCII case fold, for both the search term and the columns;
  - ordinal substring search;
  - ordinal string order.
- `mapping.dfy`: `Mapping`, the mapping profile rules as construction functions.
- `query.dfy`: `Query`, the repository's query pipelines as functions over the table's rows:
  - the status and search filters;
  - the ordering by DateApplied descending, then CompanyName;
  - Skip/Take paging;
  - the filtered scan with its total count;
  - the group-by-status count;
  - the 32-bit skip computation.
- `repository.dfy`: `Repository`, the repository as a class. It holds the table as a map from key to record and the identity counter that new keys come from.
- `paging.dfy`: `Paging`:
  - the pagination filter with its clamping setters;
  - the paginated response with HasPreviousPage/HasNextPage;
  - the page-count arithmetic.
- `statistics.dfy`: `Statistics`, the statistics summary. Rates are whole hundredths of a percent, rounded half to even.
- `service.dfy`: `Service`, the service as a class over a repository.
- `arith.dfy`: `Arithmetic`, two product facts that the paging and rate proofs use.

The controller builds the listing filter through PaginationFilterDto's setters. The PageNumber setter raises values below 1 to 1. The PageSize setter clamps values to [1, 50], where 50 is its MaxPageSize. The response's HasPreviousPage is `PageNumber > 1` and HasNextPage is `PageNumber < TotalPages`.

Timestamps are integer ticks. The clock (`DateTime.UtcNow`) is a `now` parameter.

## Model

| member | source | states |
|---|---|---|
| Text.IsNullOrWhiteSpace | JobApplicationTracker.Infrastructure/Repositories/JobApplicationRepository.cs:62 | a term is skipped when it is absent or every character is a Char.IsWhiteSpace character (the empty term included) |
| Text.ToLowerChar | JobApplicationTracker.Infrastructure/Repositories/JobApplicationRepository.cs:64 | ASCII capitals move down by 32 and every other character is unchanged; the result is never an ASCII capital |
| Text.ToLower | JobApplicationTracker.Infrastructure/Repositories/JobApplicationRepository.cs:64-68 | lower-casing keeps the length and lower-cases each character in place |
| Text.ToLowerIdempotent | JobApplicationTracker.Infrastructure/Repositories/JobApplicationRepository.cs:64-68 | lower-casing a lower-cased string changes nothing |
| Text.ToLowerIgnoresCase | JobApplicationTracker.Infrastructure/Repositories/JobApplicationRepository.cs:64-68 | strings that differ only in letter case lower-case to the same string |
| Text.ContainsIffOccurs | JobApplicationTracker.Infrastructure/Repositories/JobApplicationRepository.cs:66-68 | `Contains(s, t)` holds exactly when some slice of `s` equals `t` |
| Text.Contains | JobApplicationTracker.Infrastructure/Repositories/JobApplicationRepository.cs:66-68 | ordinal substring test: `t` is a prefix of `s` or is contained in the rest of `s` |
| Text.OrdinalTotal | JobApplicationTracker.Infrastructure/Repositories/JobApplicationRepository.cs:77 | the CompanyName order compares every pair of strings |
| Text.OrdinalTransitive | JobApplicationTracker.Infrastructure/Repositories/JobApplicationRepository.cs:77 | the CompanyName order is transitive |
| Text.OrdinalAntisymmetric | JobApplicationTracker.Infrastructure/Repositories/JobApplicationRepository.cs:77 | two names that are each ordered before the other are equal |
| Text.OrdinalLeq | JobApplicationTracker.Infrastructure/Repositories/JobApplicationRepository.cs:77 | ordinal comparison: the first differing code point decides, and a proper prefix comes first |
| Mapping.ToDto | JobApplicationTracker.Application/Mappings/MappingProfile.cs:16 | the DTO carries the entity's Id and all nine caller-visible fields |
| Mapping.FromCreate | JobApplicationTracker.Application/Mappings/MappingProfile.cs:18-22 | a created entity holds exactly the input fields, Id 0, CreatedAt = now and no UpdatedAt |
| Mapping.ApplyUpdate | JobApplicationTracker.Application/Mappings/MappingProfile.cs:24-30 | a full update replaces all nine fields with the input, keeps Id and CreatedAt, and sets UpdatedAt = now |
| Mapping.ApplyStatus | JobApplicationTracker.Application/Mappings/MappingProfile.cs:32-54 | a status update sets Status and UpdatedAt and leaves every other member as it was |
| Mapping.UpdateReadsBackInput | JobApplicationTracker.Application/Services/JobApplicationService.cs:103-109 | the DTO after a full update is the original Id with exactly the submitted fields |
| Mapping.StatusUpdateReadsBack | JobApplicationTracker.Application/Services/JobApplicationService.cs:129-133 | the DTO after a status update is the old DTO with only its status replaced |
| Query.MatchesStatus | JobApplicationTracker.Infrastructure/Repositories/JobApplicationRepository.cs:57-60 | no status filter keeps every row; a given status keeps the rows with exactly that status |
| Query.MatchesSearch | JobApplicationTracker.Infrastructure/Repositories/JobApplicationRepository.cs:65-68 | the lowered term occurs in the lowered company name or position, or in the lowered notes when notes are present |
| Query.PassesFilters | JobApplicationTracker.Infrastructure/Repositories/JobApplicationRepository.cs:57-68 | the status clause holds, and the search clause holds unless the term is absent or blank |
| Query.Where | JobApplicationTracker.Infrastructure/Repositories/JobApplicationRepository.cs:56-69 | every kept row passes both filters; every passing row keeps its multiplicity and every other row is dropped |
| Query.SearchIsSubstringMatch | JobApplicationTracker.Infrastructure/Repositories/JobApplicationRepository.cs:62-68 | a non-blank term matches exactly when its lower-cased form is a substring of the lower-cased company name, position or present notes |
| Query.SearchIgnoresTermCase | JobApplicationTracker.Infrastructure/Repositories/JobApplicationRepository.cs:62-64 | lower-casing the term first changes no filter outcome |
| Query.OrderedTotal | JobApplicationTracker.Infrastructure/Repositories/JobApplicationRepository.cs:76-77 | any two records are comparable under (DateApplied desc, CompanyName asc) |
| Query.OrderedTransitive | JobApplicationTracker.Infrastructure/Repositories/JobApplicationRepository.cs:76-77 | that order is transitive |
| Query.OrderedBefore | JobApplicationTracker.Infrastructure/Repositories/JobApplicationRepository.cs:76-77 | a later DateApplied comes first; on equal dates the ordinally smaller CompanyName comes first |
| Query.Insert | JobApplicationTracker.Infrastructure/Repositories/JobApplicationRepository.cs:76-77 | inserting into a sorted sequence keeps it sorted and adds exactly the one element |
| Query.SortApplications | JobApplicationTracker.Infrastructure/Repositories/JobApplicationRepository.cs:76-77 | the result is sorted by (DateApplied desc, CompanyName asc) and is a permutation of the input |
| Query.Skip | JobApplicationTracker.Infrastructure/Repositories/JobApplicationRepository.cs:78 | drops `max(n, 0)` leading elements (all if fewer), keeping the rest in order |
| Query.Take | JobApplicationTracker.Infrastructure/Repositories/JobApplicationRepository.cs:79 | keeps the first `max(n, 0)` elements (all if fewer) |
| Query.SkipCount | JobApplicationTracker.Infrastructure/Repositories/JobApplicationRepository.cs:78 | on a page number ≥ 1 and a size ≥ 0 the rows skipped are never negative |
| Query.Page | JobApplicationTracker.Infrastructure/Repositories/JobApplicationRepository.cs:78-79 | page p of size n holds min(n, rows left after (p-1)·n) elements, each one the element at its offset past the skip |
| Query.SliceOfSorted | JobApplicationTracker.Infrastructure/Repositories/JobApplicationRepository.cs:75-80 | a page cut from a sorted sequence is sorted and holds only elements of it |
| Query.Scan | JobApplicationTracker.Infrastructure/Repositories/JobApplicationRepository.cs:45-89 | the total counts all matches before paging; the page holds only matching rows of the table, in order; the page has the paged length and each entry sits at its offset in the ordered matches |
| Query.SortedIsByDateDescending | JobApplicationTracker.Infrastructure/Repositories/JobApplicationRepository.cs:33-35 | the sort order puts later DateApplied first |
| Query.CountStatus | JobApplicationTracker.Infrastructure/Repositories/JobApplicationRepository.cs:194-195 | a status's count is at most the number of rows, and positive exactly when some row has that status |
| Query.StatusFilterCountsStatus | JobApplicationTracker.Infrastructure/Repositories/JobApplicationRepository.cs:57-60 | filtering on one status keeps exactly that status's count of rows |
| Query.CountsByStatus | JobApplicationTracker.Infrastructure/Repositories/JobApplicationRepository.cs:193-196 | the dictionary has a key exactly for each status that occurs, mapped to its count |
| Query.CountsCoverRows | JobApplicationTracker.Infrastructure/Repositories/JobApplicationRepository.cs:193-196 | the four status counts add up to the number of rows |
| Query.WrapInt32 | JobApplicationTracker.Infrastructure/Repositories/JobApplicationRepository.cs:78 | C# unchecked int arithmetic: the result lies in the int range and is congruent to the exact value mod 2^32 |
| Query.PageAsWritten | JobApplicationTracker.Infrastructure/Repositories/JobApplicationRepository.cs:78-79 | Skip of the 32-bit wrapped product (p-1)·n, then Take n, as the repository writes it |
| Query.PageAsWrittenAgrees | JobApplicationTracker.Infrastructure/Repositories/JobApplicationRepository.cs:78-79 | while (p-1)·n fits in an int, the 32-bit paging and the exact paging agree |
| Query.OverflowedSkipReturnsFirstPage | JobApplicationTracker.Infrastructure/Repositories/JobApplicationRepository.cs:78 | page 1073741825 of size 4 should be empty, but the 32-bit skip wraps to 0 and the first page is returned |
| Repository.JobApplicationRepository.constructor | JobApplicationTracker.Infrastructure/Repositories/JobApplicationRepository.cs:22-26 | a new repository is an empty table whose identity counter starts at 1 |
| Repository.JobApplicationRepository.Table | JobApplicationTracker.Infrastructure/Data/ApplicationDbContext.cs:19 | the table's rows are every stored record exactly once, in ascending key order |
| Repository.JobApplicationRepository.GetAll | JobApplicationTracker.Infrastructure/Repositories/JobApplicationRepository.cs:29-42 | every stored record, as a permutation of the table, with DateApplied non-increasing |
| Repository.JobApplicationRepository.GetApplications | JobApplicationTracker.Infrastructure/Repositories/JobApplicationRepository.cs:45-89 | the page and the total are those of the filtered, ordered scan over the table |
| Repository.JobApplicationRepository.GetById | JobApplicationTracker.Infrastructure/Repositories/JobApplicationRepository.cs:92-103 | present exactly when the key is stored, and then the stored record, which carries that key |
| Repository.JobApplicationRepository.Exists | JobApplicationTracker.Infrastructure/Repositories/JobApplicationRepository.cs:175-186 | true exactly when the key is stored |
| Repository.JobApplicationRepository.Create | JobApplicationTracker.Infrastructure/Repositories/JobApplicationRepository.cs:106-119 | the record is stored under a fresh key taken from the identity counter; nothing else changes and the returned record is the stored one |
| Repository.JobApplicationRepository.Update | JobApplicationTracker.Infrastructure/Repositories/JobApplicationRepository.cs:122-150 | a stored key: the record is written back with UpdatedAt = now and that record is returned; a missing key: not-found and nothing changes |
| Repository.JobApplicationRepository.Delete | JobApplicationTracker.Infrastructure/Repositories/JobApplicationRepository.cs:153-172 | true exactly when the key was stored; afterwards the key is gone and nothing else changed |
| Repository.JobApplicationRepository.GetCountsByStatus | JobApplicationTracker.Infrastructure/Repositories/JobApplicationRepository.cs:189-203 | the group-by-status counts of the table, keyed by exactly the statuses that are stored |
| Paging.ClampPageNumber | JobApplicationTracker.API/Controllers/ApplicationsController.cs:48-50 | page numbers below 1 become 1; others are kept |
| Paging.ClampPageSize | JobApplicationTracker.API/Controllers/ApplicationsController.cs:48-51 | sizes above 50 become 50, sizes below 1 become 1, and sizes in [1, 50] are kept |
| Paging.NewPaginationFilter | JobApplicationTracker.API/Controllers/ApplicationsController.cs:48-54 | a filter set through its setters has page ≥ 1 and size in [1, 50], with status and term as given |
| Paging.DefaultFilter | JobApplicationTracker.API/Controllers/ApplicationsController.cs:43-44 | the defaults (page 1, size 10) are a valid filter |
| Paging.DefaultListingHasNoPreviousPage | JobApplicationTracker.API/Controllers/ApplicationsController.cs:43-67 | the default listing is page 1 of size 10, has no previous page, and has a next page exactly when more than 10 rows match |
| Paging.PaginatedResponse.HasPreviousPage | JobApplicationTracker.API/Controllers/ApplicationsController.cs:65 | there is a previous page exactly when the page number is above 1 |
| Paging.PaginatedResponse.HasNextPage | JobApplicationTracker.API/Controllers/ApplicationsController.cs:66 | there is a next page exactly when the page number is below the page count |
| Paging.CeilDiv | JobApplicationTracker.Application/Services/JobApplicationService.cs:43 | the page count is the least q with q·size ≥ total, and 0 exactly when there are no rows |
| Paging.CeilDivIsQuotient | JobApplicationTracker.Application/Services/JobApplicationService.cs:43 | the page count is total / size, plus one when the division leaves a remainder |
| Paging.ToDtos | JobApplicationTracker.Application/Services/JobApplicationService.cs:41 | each record of the page is mapped to its DTO, in order |
| Paging.BuildEnvelope | JobApplicationTracker.Application/Services/JobApplicationService.cs:41-52 | the envelope echoes the filter's page and size, carries the total, has the ceiling page count and the page's DTOs |
| Paging.HasNextPageIffMoreRows | JobApplicationTracker.API/Controllers/ApplicationsController.cs:59-67 | HasNextPage holds exactly when matching rows remain past the current page |
| Paging.LastPageSkips | JobApplicationTracker.Application/Services/JobApplicationService.cs:43 | the last page (number = page count) starts after total - (total mod size) rows, or total - size when size divides total; the next page starts at or past the end |
| Paging.LastPageSize | JobApplicationTracker.Application/Services/JobApplicationService.cs:43 | the last page holds total mod size rows, or a full page when size divides total |
| Paging.PastLastPageEmpty | JobApplicationTracker.Application/Services/JobApplicationService.cs:43 | the page after the last one is empty |
| Statistics.CountOf | JobApplicationTracker.Application/Services/JobApplicationService.cs:164-167 | a status's count is its dictionary entry, or 0 when the status is absent |
| Statistics.ValuesSum | JobApplicationTracker.Application/Services/JobApplicationService.cs:162 | Values.Sum(): the values added up with the keys taken in any order |
| Statistics.ValuesSumIsStatusTotal | JobApplicationTracker.Application/Services/JobApplicationService.cs:162 | the sum of the dictionary's values, in any key order, equals the sum of the four status counts |
| Statistics.RoundHalfEven | JobApplicationTracker.Application/Services/JobApplicationService.cs:170 | the result is within half a unit of num/den, and an exact tie goes to the even neighbour |
| Statistics.RoundHalfEvenUnique | JobApplicationTracker.Application/Services/JobApplicationService.cs:170 | any integer strictly within half a unit of num/den is the rounded result |
| Statistics.RoundHalfEvenExact | JobApplicationTracker.Application/Services/JobApplicationService.cs:170 | exact quotients are not changed by rounding |
| Statistics.RateAtMostWhole | JobApplicationTracker.Application/Services/JobApplicationService.cs:169-175 | a part no larger than its whole gives at most 100.00% |
| Statistics.Percent | JobApplicationTracker.Application/Services/JobApplicationService.cs:170 | the rate is part/whole·100 to the nearest hundredth, an exact tie going to the even hundredth, and at most 100.00% when part ≤ whole |
| Statistics.ComputeStatistics | JobApplicationTracker.Application/Services/JobApplicationService.cs:161-186 | the total is the sum of the dictionary's values and the counts default to 0; the success rate is offers/total to the nearest hundredth of a percent, ties to even (0 with no rows); the interview rate is interviews/(interviews + applied) likewise (0 when nothing is at Applied); both are ≤ 100.00% |
| Statistics.EmptyStatistics | JobApplicationTracker.Application/Services/JobApplicationService.cs:169-175 | an empty dictionary gives all zeros |
| Statistics.WorkedExample | JobApplicationTracker.Application/Services/JobApplicationService.cs:161-186 | counts 10/5/2/3 give total 20, success 10.00% and interview 33.33% |
| Statistics.TieRoundsToEven | JobApplicationTracker.Application/Services/JobApplicationService.cs:170 | 1 offer in 32 rows is exactly 3.125%, which rounds to the even 3.12% |
| Statistics.InterviewRateNeedsApplied | JobApplicationTracker.Application/Services/JobApplicationService.cs:173-175 | with nothing at Applied the interview rate is 0, whatever the interview count |
| Service.StatisticsTotalIsTableSize | JobApplicationTracker.Application/Services/JobApplicationService.cs:161-162 | the statistics total equals the number of stored rows |
| Service.StatusListingAgreesWithStatistics | JobApplicationTracker.Application/Services/JobApplicationService.cs:31-59 | a listing filtered on one status reports that status's statistics count as its total, on every page |
| Service.JobApplicationService.constructor | JobApplicationTracker.Application/Services/JobApplicationService.cs:23-28 | the service works on the repository it is given |
| Service.JobApplicationService.GetAll | JobApplicationTracker.Application/Services/JobApplicationService.cs:31-59 | the response is the envelope built from the repository's scan for the filter |
| Service.JobApplicationService.GetById | JobApplicationTracker.Application/Services/JobApplicationService.cs:62-74 | present exactly when the key is stored, and then the stored record's DTO |
| Service.JobApplicationService.Create | JobApplicationTracker.Application/Services/JobApplicationService.cs:77-90 | the input is stored under a fresh key with CreatedAt = now, and read back as that key with exactly the input fields |
| Service.JobApplicationService.Update | JobApplicationTracker.Application/Services/JobApplicationService.cs:93-116 | a missing key: absent and nothing changes; otherwise the stored record becomes the full update of the old one and the result is the key with exactly the input fields |
| Service.JobApplicationService.UpdateStatus | JobApplicationTracker.Application/Services/JobApplicationService.cs:119-140 | a missing key: absent and nothing changes; otherwise only the status and UpdatedAt of the stored record change and the result is the old DTO with the new status |
| Service.JobApplicationService.Delete | JobApplicationTracker.Application/Services/JobApplicationService.cs:143-154 | true exactly when the key was stored; the key is gone afterwards |
| Service.JobApplicationService.GetStatistics | JobApplicationTracker.Application/Services/JobApplicationService.cs:157-193 | the summary of the table's per-status counts, with a total equal to the number of stored records |

## Left out

- Async execution, logging, and the catch-log-rethrow blocks are left out. Every operation is one sequential step, and the rethrown exceptions (provider failures) have no counterpart.
- Repository.JobApplicationRepository.Update: models only the missing-key case of DbUpdateConcurrencyException. The entity has no concurrency token, so that exception arises only when the row is gone. The rethrow for a record that still exists after a conflict needs concurrent writers, which are not modelled. KeyNotFoundException is the `NotFound` result.
- Repository.JobApplicationRepository.Create: requires Id 0, the value the create mapping always produces. Rows inserted with explicit keys by other means (the unit-test fixture adds them with AddRange) are not modelled.
- Service.JobApplicationService.Update: the service and the repository each read the clock for UpdatedAt. The model uses one `now` for both, so the stored UpdatedAt is the repository's stamp, as in the source.
- CreateJobApplicationDto is not part of this model. The create input is taken to carry the same nine writable fields as UpdateJobApplicationDto.
- Query.Scan: pages with the exact product (p-1)·n. When that product reaches 2^31 or more, the source's 32-bit skip wraps and it returns a different page. Query.PageAsWritten models the wrapped paging, and Query.PageAsWrittenAgrees shows the two agree whenever the product fits in an int (see Findings).
- Repository.JobApplicationRepository.GetApplications: the same exact-product paging as Query.Scan, for the same reason.
- Text.ToLower: an ASCII case fold standing for both sides of the search. The term is lowered in process by C#'s culture-sensitive ToLower. The columns are lowered by the database's lower() under SQLite, or by C# under the in-memory provider. Culture-sensitive and non-ASCII case folding are out of scope, as is collation beyond ordinal order.
- Query.SortApplications: ties on both DateApplied and CompanyName are broken by key order. The source leaves that order to the provider.
- Repository.JobApplicationRepository.GetAll: states the DateApplied-descending order and the permutation, which is all the source promises. The model returns the fuller (DateApplied, CompanyName) order, which is one such order.
- Statistics.ComputeStatistics: counts are unbounded. The checked overflow of `Values.Sum()` beyond 2^31 - 1 records is not modelled. Rates are exact rationals rounded half to even, standing for decimal division. Decimal's error is below 10^-26, so it can never cross a rounding boundary.
- Statistics.JobApplicationStatistics: the documentation calls the interview rate "Interviews / Applied". The code divides by interviews plus applied and guards on applied > 0. The model follows the code.
- Field length limits, required-field validation and e-mail/URL formats are left out. They are enforced by the persistence configuration and the HTTP layer.
- Domain.Status: a status query parameter outside 0..3 is cast to an unnamed enum value, which matches no row. The closed status type cannot hold such a value.
- The HTTP controllers, dependency injection, provider selection, seeding and the frontend are left out.

## Findings

| source | as written | input that shows it | evidently intended | confidence | as-written member | corrected member |
|---|---|---|---|---|---|---|
| JobApplicationTracker.Infrastructure/Repositories/JobApplicationRepository.cs:78 | the skip count `(pageNumber - 1) * pageSize` is an unchecked 32-bit product | pageNumber = 1073741825, pageSize = 4: the product 2^32 wraps to 0, so the first page comes back instead of an empty page | an empty page for any page past the end | not executed | Query.OverflowedSkipReturnsFirstPage | Query.Page |
