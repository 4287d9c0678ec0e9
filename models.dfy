/**
 * The records of the job board that the query, table and statistics models
 * read: jobs, job applications, profiles, services and the reply tags of the
 * HTTP actions. Only the columns the modelled behaviour looks at are kept.
 */
module Models {
  import opened Wrappers
  import opened Calendar

  /** An account; `is_active` defaults to true. */
  datatype User = User(id: int, isActive: bool)

  /** An employer profile; `approval_status` says whether an administrator verified it. */
  datatype Employer = Employer(userId: int, companyName: Option<string>, approvalStatus: bool, isActive: bool)

  /** A job seeker profile; `experience` and `location` are nullable text columns. */
  datatype Seeker = Seeker(userId: int, experience: Option<string>, location: Option<string>, technologies: set<int>, isActive: bool)

  /** A job posting; `technologies` holds the ids of its many-to-many technology tags. */
  datatype Job = Job(
    id: int,
    employerId: int,
    title: string,
    location: string,
    salary: string,
    experience: string,
    technologies: set<int>,
    expirationDate: DateTime,
    createdDate: DateTime,
    isActive: bool)

  /** The review state of an application: accepted for interview, closed, or not yet looked at. */
  datatype CVStatus = Open | Closed | Pending

  /** An application of a seeker to a job; `cv` stands for the uploaded file. */
  datatype JobApplication = JobApplication(
    id: int,
    jobId: int,
    seekerId: int,
    coverLetter: string,
    cv: string,
    status: CVStatus,
    isActive: bool)

  /** A purchasable promotional service; `price` is in hundredths, `duration` in months. */
  datatype Service = Service(name: string, price: int, duration: int, isActive: bool)

  /** The outcome of an HTTP action, reduced to its status. */
  datatype Reply = Created | NoContent | BadRequest | NotFound

  /** A job created without an explicit `is_active` is active. */
  function NewJob(
    id: int, employerId: int, title: string, location: string, salary: string, experience: string,
    technologies: set<int>, expirationDate: DateTime, createdDate: DateTime): (j: Job)
    ensures j.isActive
    ensures j.id == id && j.employerId == employerId && j.technologies == technologies
    ensures j.title == title && j.location == location && j.salary == salary && j.experience == experience
    ensures j.expirationDate == expirationDate && j.createdDate == createdDate
  {
    Job(id, employerId, title, location, salary, experience, technologies, expirationDate, createdDate, true)
  }

  /** An application created without an explicit status is pending review and active. */
  function NewApplication(id: int, jobId: int, seekerId: int, coverLetter: string, cv: string): (a: JobApplication)
    ensures a.status == Pending && a.isActive
    ensures a.id == id && a.jobId == jobId && a.seekerId == seekerId
    ensures a.coverLetter == coverLetter && a.cv == cv
  {
    JobApplication(id, jobId, seekerId, coverLetter, cv, Pending, true)
  }

  /** A service created without an explicit duration lasts one month and is active. */
  function NewService(name: string, price: int): (s: Service)
    ensures s.duration == 1 && s.isActive
    ensures s.name == name && s.price == price
  {
    Service(name, price, 1, true)
  }

  /** The primary key of the job table: no two rows share an id. */
  predicate UniqueIds(store: seq<Job>)
  {
    forall i, k :: 0 <= i < k < |store| ==> store[i].id != store[k].id
  }
}
