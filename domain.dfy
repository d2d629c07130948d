/** Optional values and error results, standing for C#'s nullable references and exceptions. */
module Wrappers {

  datatype Option<+T> = None | Some(value: T)

  datatype Result<+R, +E> = Success(value: R) | Failure(error: E)
}

/**
 * The domain layer: the job application entity, its closed status enumeration,
 * and the input shapes the mapping rules consume.
 */
module Domain {
  import opened Wrappers

  /** ApplicationStatus: Applied = 0, Interview = 1, Offer = 2, Rejected = 3. */
  datatype Status = Applied | Interview | Offer | Rejected

  /** Timestamps (DateTime) are modelled as integer ticks. */
  type Ticks = int

  /**
   * The stored record. String? becomes Option<string>, DateTime? becomes
   * Option<Ticks>; SalaryRange (decimal?) is only ever copied, so a real suffices.
   */
  datatype JobApplication = JobApplication(
    id: int,
    companyName: string,
    position: string,
    status: Status,
    dateApplied: Ticks,
    contactPerson: Option<string>,
    contactEmail: Option<string>,
    notes: Option<string>,
    jobUrl: Option<string>,
    salaryRange: Option<real>,
    createdAt: Ticks,
    updatedAt: Option<Ticks>)

  /**
   * The nine fields a caller may write: the payload of both the create and
   * the full-update input. Id, CreatedAt and UpdatedAt are not among them.
   */
  datatype ApplicationFields = ApplicationFields(
    companyName: string,
    position: string,
    status: Status,
    dateApplied: Ticks,
    contactPerson: Option<string>,
    contactEmail: Option<string>,
    notes: Option<string>,
    jobUrl: Option<string>,
    salaryRange: Option<real>)

  /** The record as returned to callers: the caller-visible fields plus Id, without the two timestamps. */
  datatype JobApplicationDto = JobApplicationDto(id: int, fields: ApplicationFields)

  /** The writable part of a stored record. */
  function FieldsOf(a: JobApplication): ApplicationFields {
    ApplicationFields(a.companyName, a.position, a.status, a.dateApplied,
                      a.contactPerson, a.contactEmail, a.notes, a.jobUrl, a.salaryRange)
  }

  /** Two records agree on everything except Status and UpdatedAt. */
  predicate SameExceptStatusAndStamp(a: JobApplication, b: JobApplication) {
    a.(status := b.status, updatedAt := b.updatedAt) == b
  }
}
