/**
 * Job applications: `apply_job`, which adds a row to the application table,
 * and the employer's two listings of the applications to their jobs,
 * `employer_apply` (accepted for interview) and `employer_apply_new`
 * (pending or closed).
 */
module Applications {
  import opened Wrappers
  import opened Text
  import opened Models

  /** The ids of the jobs the employer posted, live or not (`Job.objects.filter(employer=employer)`). */
  function EmployerJobIds(store: seq<Job>, employer: int): (ids: set<int>)
    ensures forall j :: j in store && j.employerId == employer ==> j.id in ids
    ensures forall id :: id in ids ==> exists j :: j in store && j.employerId == employer && j.id == id
  {
    set j | j in store && j.employerId == employer :: j.id
  }

  /** `JobApplication.objects.filter(job__in=jobIds, status__in=statuses)`, in table order. */
  function WithStatus(apps: seq<JobApplication>, jobIds: set<int>, statuses: set<CVStatus>): (r: seq<JobApplication>)
    ensures |r| <= |apps|
    ensures forall a :: a in r <==> a in apps && a.jobId in jobIds && a.status in statuses
  {
    if apps == [] then []
    else
      assert apps == [apps[0]] + apps[1..];
      (if apps[0].jobId in jobIds && apps[0].status in statuses then [apps[0]] else [])
      + WithStatus(apps[1..], jobIds, statuses)
  }

  /** `employer_apply`: the applications to the employer's jobs that were accepted for interview. */
  function EmployerApply(apps: seq<JobApplication>, store: seq<Job>, employer: int): (r: seq<JobApplication>)
    ensures |r| <= |apps|
    ensures forall a :: a in r <==> a in apps && a.jobId in EmployerJobIds(store, employer) && a.status == Open
  {
    WithStatus(apps, EmployerJobIds(store, employer), {Open})
  }

  /** `employer_apply_new`: the applications to the employer's jobs that are pending or closed. */
  function EmployerApplyNew(apps: seq<JobApplication>, store: seq<Job>, employer: int): (r: seq<JobApplication>)
    ensures |r| <= |apps|
    ensures forall a :: a in r <==> a in apps && a.jobId in EmployerJobIds(store, employer) && (a.status == Pending || a.status == Closed)
  {
    WithStatus(apps, EmployerJobIds(store, employer), {Pending, Closed})
  }

  /** Filtering by two disjoint status sets splits the rows filtered by their union. */
  lemma {:induction false} WithStatusSplits(apps: seq<JobApplication>, jobIds: set<int>, s1: set<CVStatus>, s2: set<CVStatus>)
    requires s1 !! s2
    ensures |WithStatus(apps, jobIds, s1)| + |WithStatus(apps, jobIds, s2)| == |WithStatus(apps, jobIds, s1 + s2)|
    decreases |apps|
  {
    if apps != [] {
      WithStatusSplits(apps[1..], jobIds, s1, s2);
    }
  }

  /**
   * The two employer listings partition the applications to the employer's
   * jobs: each such application is in exactly one of them, and together they
   * hold as many rows as there are applications to those jobs.
   */
  lemma EmployerListingsPartition(apps: seq<JobApplication>, store: seq<Job>, employer: int)
    ensures var ids := EmployerJobIds(store, employer);
      |EmployerApply(apps, store, employer)| + |EmployerApplyNew(apps, store, employer)|
      == |WithStatus(apps, ids, {Open, Pending, Closed})|
    ensures forall a :: a in apps && a.jobId in EmployerJobIds(store, employer) ==>
      (a in EmployerApply(apps, store, employer) <==> a !in EmployerApplyNew(apps, store, employer))
  {
    var ids := EmployerJobIds(store, employer);
    WithStatusSplits(apps, ids, {Open}, {Pending, Closed});
    assert {Open} + {Pending, Closed} == {Open, Pending, Closed};
    forall a | a in apps && a.jobId in ids
      ensures a in EmployerApply(apps, store, employer) <==> a !in EmployerApplyNew(apps, store, employer)
    {
      match a.status
      case Open =>
      case Pending =>
      case Closed =>
    }
  }

  /** A new application is listed among the employer's new applications and not among the accepted ones. */
  lemma NewApplicationIsListedAsNew(
    apps: seq<JobApplication>, store: seq<Job>, employer: int, job: Job,
    id: int, seekerId: int, coverLetter: string, cv: string)
    requires job in store && job.employerId == employer
    ensures var a := NewApplication(id, job.id, seekerId, coverLetter, cv);
      a in EmployerApplyNew(apps + [a], store, employer) && a !in EmployerApply(apps + [a], store, employer)
  {
  }

  /** The application table, which `apply_job` appends to. */
  class ApplicationTable {
    var rows: seq<JobApplication>
    /** The id the database assigns to the next row. */
    var nextId: int

    ghost predicate Valid()
      reads this
    {
      && (forall i, k :: 0 <= i < k < |rows| ==> rows[i].id != rows[k].id)
      && (forall a :: a in rows ==> a.id < nextId)
    }

    constructor ()
      ensures Valid() && rows == [] && nextId == 1
    {
      rows := [];
      nextId := 1;
    }

    /**
     * `apply_job`: without a cover letter or a CV the request is refused and
     * nothing is created; otherwise exactly one application is added, pending
     * review. The job is looked up before anything else, and an unknown job id
     * is not handled by the action.
     */
    method ApplyJob(jobId: int, seekerId: int, coverLetter: Option<string>, cv: Option<string>, jobIds: set<int>)
      returns (reply: Reply)
      requires Valid()
      requires jobId in jobIds
      modifies this
      ensures Valid()
      ensures reply == (if Supplied(coverLetter) && Supplied(cv) then Created else BadRequest)
      ensures reply == Created ==>
        && rows == old(rows) + [NewApplication(old(nextId), jobId, seekerId, coverLetter.value, cv.value)]
        && nextId == old(nextId) + 1
      ensures reply == BadRequest ==> rows == old(rows) && nextId == old(nextId)
    {
      if !Supplied(coverLetter) || !Supplied(cv) {
        return BadRequest;
      }
      var application := NewApplication(nextId, jobId, seekerId, coverLetter.value, cv.value);
      rows := rows + [application];
      nextId := nextId + 1;
      reply := Created;
    }
  }
}
