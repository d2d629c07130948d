/**
 * The application service: each operation reads or changes the repository
 * and hands back DTOs, building the paging envelope for listings and the
 * statistics summary from the per-status counts.
 */
module Service {
  import opened Wrappers
  import opened Domain
  import Mapping
  import Query
  import Paging
  import Statistics
  import Repository

  /** The statistics total is the number of rows: every row has exactly one of the four statuses. */
  lemma {:induction false} StatisticsTotalIsTableSize(rows: seq<JobApplication>)
    ensures Statistics.ComputeStatistics(Query.CountsByStatus(rows)).totalCount == |rows|
  {
    var counts := Query.CountsByStatus(rows);
    CountOfIsCountStatus(rows);
    Statistics.ValuesSumIsStatusTotal(counts);
    Query.CountsCoverRows(rows);
  }

  /** Reading a status out of the counts map gives that status's count, absent statuses counting 0. */
  lemma CountOfIsCountStatus(rows: seq<JobApplication>)
    ensures forall s :: Statistics.CountOf(Query.CountsByStatus(rows), s) == Query.CountStatus(rows, s)
  {
  }

  /**
   * A listing filtered on one status reports, as its total, the count the
   * statistics give for that status, on every page and page size.
   */
  lemma {:induction false} StatusListingAgreesWithStatistics(rows: seq<JobApplication>, s: Status, pageNumber: int, pageSize: int)
    ensures Query.Scan(rows, pageNumber, pageSize, Some(s), None).totalCount
         == Statistics.CountOf(Query.CountsByStatus(rows), s)
  {
    Query.StatusFilterCountsStatus(rows, s);
    CountOfIsCountStatus(rows);
  }

  class JobApplicationService {
    const repository: Repository.JobApplicationRepository

    constructor (repository: Repository.JobApplicationRepository)
      ensures this.repository == repository
    {
      this.repository := repository;
    }

    /** GetAllAsync: the requested page of matches as DTOs, with the total and the page count. */
    method GetAll(filter: Paging.PaginationFilter) returns (response: Paging.PaginatedResponse)
      requires repository.Valid() && Paging.ValidFilter(filter)
      ensures var scan := Query.Scan(repository.Table(), filter.pageNumber, filter.pageSize, filter.status, filter.searchTerm);
        response == Paging.BuildEnvelope(filter, scan.applications, scan.totalCount)
    {
      var applications, totalCount :=
        repository.GetApplications(filter.pageNumber, filter.pageSize, filter.status, filter.searchTerm);
      response := Paging.BuildEnvelope(filter, applications, totalCount);
    }

    /** GetByIdAsync: the stored record's DTO, or absent. */
    method GetById(id: int) returns (r: Option<JobApplicationDto>)
      requires repository.Valid()
      ensures r.Some? <==> id in repository.store
      ensures r.Some? ==> r.value == Mapping.ToDto(repository.store[id]) && r.value.id == id
    {
      var found := repository.GetById(id);
      r := if found.Some? then Some(Mapping.ToDto(found.value)) else None;
    }

    /** CreateAsync: the input is stored under a fresh key and read back with that key. */
    method Create(input: ApplicationFields, now: Ticks) returns (created: JobApplicationDto)
      requires repository.Valid()
      modifies repository
      ensures repository.Valid() && repository.nextId == old(repository.nextId) + 1
      ensures created == JobApplicationDto(old(repository.nextId), input)
      ensures created.id !in old(repository.store)
      ensures repository.store == old(repository.store)[created.id := Mapping.FromCreate(input, now).(id := created.id)]
    {
      var entity := Mapping.FromCreate(input, now);
      var stored := repository.Create(entity);
      created := Mapping.ToDto(stored);
    }

    /**
     * UpdateAsync: absent when the key is not stored, nothing changed;
     * otherwise every writable field is replaced by the input, the key and
     * creation time are kept, and the update time is stamped.
     */
    method Update(id: int, input: ApplicationFields, now: Ticks) returns (r: Option<JobApplicationDto>)
      requires repository.Valid()
      modifies repository
      ensures repository.Valid() && repository.nextId == old(repository.nextId)
      ensures id !in old(repository.store) ==> r == None && repository.store == old(repository.store)
      ensures id in old(repository.store) ==>
        && r == Some(JobApplicationDto(id, input))
        && repository.store == old(repository.store)[id := Mapping.ApplyUpdate(old(repository.store)[id], input, now)]
    {
      var existing := repository.GetById(id);
      if existing.None? {
        return None;
      }
      var edited := Mapping.ApplyUpdate(existing.value, input, now).(id := id);
      var result := repository.Update(edited, now);
      Mapping.UpdateReadsBackInput(existing.value, input, now);
      r := Some(Mapping.ToDto(result.value));
    }

    /**
     * UpdateStatusAsync: absent when the key is not stored, nothing changed;
     * otherwise only the status is replaced and the update time stamped.
     */
    method UpdateStatus(id: int, status: Status, now: Ticks) returns (r: Option<JobApplicationDto>)
      requires repository.Valid()
      modifies repository
      ensures repository.Valid() && repository.nextId == old(repository.nextId)
      ensures id !in old(repository.store) ==> r == None && repository.store == old(repository.store)
      ensures id in old(repository.store) ==>
        var before := old(repository.store)[id];
        && r == Some(Mapping.ToDto(before).(fields := FieldsOf(before).(status := status)))
        && repository.store == old(repository.store)[id := Mapping.ApplyStatus(before, status, now)]
    {
      var existing := repository.GetById(id);
      if existing.None? {
        return None;
      }
      var edited := Mapping.ApplyStatus(existing.value, status, now);
      var result := repository.Update(edited, now);
      Mapping.StatusUpdateReadsBack(existing.value, status, now);
      r := Some(Mapping.ToDto(result.value));
    }

    /** DeleteAsync: true exactly when the key was stored, and the key is gone afterwards. */
    method Delete(id: int) returns (deleted: bool)
      requires repository.Valid()
      modifies repository
      ensures repository.Valid() && repository.nextId == old(repository.nextId)
      ensures deleted <==> id in old(repository.store)
      ensures repository.store == old(repository.store) - {id}
    {
      deleted := repository.Delete(id);
    }

    /** GetStatisticsAsync: the summary of the per-status counts; its total is the number of stored records. */
    method GetStatistics() returns (st: Statistics.JobApplicationStatistics)
      requires repository.Valid()
      ensures st == Statistics.ComputeStatistics(Query.CountsByStatus(repository.Table()))
      ensures st.totalCount == |repository.store|
    {
      var counts := repository.GetCountsByStatus();
      st := Statistics.ComputeStatistics(counts);
      StatisticsTotalIsTableSize(repository.Table());
    }
  }
}
