/**
 * The field-copy rules of the mapping profile, written out as one
 * construction function per rule: which fields each operation copies from
 * its input, which it stamps with the current time, and which it leaves alone.
 */
module Mapping {
  import opened Wrappers
  import opened Domain

  /** Entity to DTO: every caller-visible field and the Id are copied; the timestamps are not part of the DTO. */
  function ToDto(a: JobApplication): (d: JobApplicationDto)
    ensures d.id == a.id
    ensures d.fields == FieldsOf(a)
  {
    JobApplicationDto(a.id, ApplicationFields(a.companyName, a.position, a.status, a.dateApplied,
                                              a.contactPerson, a.contactEmail, a.notes, a.jobUrl, a.salaryRange))
  }

  /** Create input to entity: fields from the input, Id left at its default 0, CreatedAt stamped, UpdatedAt absent. */
  function FromCreate(input: ApplicationFields, now: Ticks): (r: JobApplication)
    ensures FieldsOf(r) == input
    ensures r.id == 0
    ensures r.createdAt == now && r.updatedAt == None
  {
    JobApplication(0, input.companyName, input.position, input.status, input.dateApplied,
                   input.contactPerson, input.contactEmail, input.notes, input.jobUrl, input.salaryRange,
                   now, None)
  }

  /** Update input onto an existing entity: every writable field overwritten, Id and CreatedAt ignored, UpdatedAt stamped. */
  function ApplyUpdate(a: JobApplication, input: ApplicationFields, now: Ticks): (r: JobApplication)
    ensures FieldsOf(r) == input
    ensures r.id == a.id && r.createdAt == a.createdAt
    ensures r.updatedAt == Some(now)
  {
    a.(companyName := input.companyName, position := input.position, status := input.status,
       dateApplied := input.dateApplied, contactPerson := input.contactPerson,
       contactEmail := input.contactEmail, notes := input.notes, jobUrl := input.jobUrl,
       salaryRange := input.salaryRange, updatedAt := Some(now))
  }

  /** Status input onto an existing entity: only Status is copied and UpdatedAt stamped; all ten other members are ignored. */
  function ApplyStatus(a: JobApplication, status: Status, now: Ticks): (r: JobApplication)
    ensures r.status == status && r.updatedAt == Some(now)
    ensures SameExceptStatusAndStamp(a, r)
  {
    a.(status := status, updatedAt := Some(now))
  }

  /** What a caller reads back after a full update: the requested id and exactly the submitted fields. */
  lemma {:induction false} UpdateReadsBackInput(a: JobApplication, input: ApplicationFields, now: Ticks)
    ensures ToDto(ApplyUpdate(a, input, now)) == JobApplicationDto(a.id, input)
  {
    var r := ApplyUpdate(a, input, now);
    assert FieldsOf(r) == input;
  }

  /** What a caller reads back after a status update: the old DTO with only its status replaced. */
  lemma {:induction false} StatusUpdateReadsBack(a: JobApplication, status: Status, now: Ticks)
    ensures ToDto(ApplyStatus(a, status, now)) == ToDto(a).(fields := FieldsOf(a).(status := status))
  {
  }
}
