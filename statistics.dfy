/**
 * The administrator's counters: `get_statistics_user` over the user, employer
 * and seeker tables and `get_statistics_job` over the job table, the latter
 * with an optional calendar month.
 */
module Statistics {
  import opened Wrappers
  import opened Models

  datatype UserStatistics = UserStatistics(totalUsers: int, totalEmployers: nat, verifiedEmployers: nat, totalSeekers: nat)

  datatype JobStatistics = JobStatistics(totalJobs: nat, activeJobs: nat, expiredJobs: nat)

  /** The number of employers whose `approval_status` is set. */
  function CountVerified(employers: seq<Employer>): (n: nat)
    ensures n <= |employers|
    ensures n == 0 <==> forall e :: e in employers ==> !e.approvalStatus
    ensures n == |employers| <==> forall e :: e in employers ==> e.approvalStatus
  {
    assert employers != [] ==> employers == [employers[0]] + employers[1..];
    if employers == [] then 0
    else (if employers[0].approvalStatus then 1 else 0) + CountVerified(employers[1..])
  }

  /** The number of jobs whose `is_active` flag equals `active`. */
  function CountWithActive(jobs: seq<Job>, active: bool): (n: nat)
    ensures n <= |jobs|
    ensures n == 0 <==> forall j :: j in jobs ==> j.isActive != active
    ensures n == |jobs| <==> forall j :: j in jobs ==> j.isActive == active
  {
    assert jobs != [] ==> jobs == [jobs[0]] + jobs[1..];
    if jobs == [] then 0
    else (if jobs[0].isActive == active then 1 else 0) + CountWithActive(jobs[1..], active)
  }

  /** The number of jobs created in the given month of the given year. */
  function CountCreatedIn(jobs: seq<Job>, month: int, year: int): (n: nat)
    ensures n <= |jobs|
    ensures n == 0 <==> forall j :: j in jobs ==> !(j.createdDate.month == month && j.createdDate.year == year)
  {
    assert jobs != [] ==> jobs == [jobs[0]] + jobs[1..];
    if jobs == [] then 0
    else (if jobs[0].createdDate.month == month && jobs[0].createdDate.year == year then 1 else 0)
         + CountCreatedIn(jobs[1..], month, year)
  }

  /**
   * `get_statistics_user`: one user fewer than the table holds, all
   * employers, the verified ones among them, and all seekers.
   */
  function GetStatisticsUser(users: seq<User>, employers: seq<Employer>, seekers: seq<Seeker>): (r: UserStatistics)
    ensures r.totalUsers == |users| - 1
    ensures r.totalEmployers == |employers| && r.totalSeekers == |seekers|
    ensures r.verifiedEmployers == CountVerified(employers)
    ensures r.verifiedEmployers <= r.totalEmployers
  {
    UserStatistics(|users| - 1, |employers|, CountVerified(employers), |seekers|)
  }

  /**
   * `get_statistics_job`: when both month and year are supplied, the jobs
   * created in that month; otherwise all jobs. `month` and `year` are `None`
   * when the request string is absent or empty.
   */
  function GetStatisticsJob(jobs: seq<Job>, month: Option<int>, year: Option<int>): (r: JobStatistics)
    ensures r.totalJobs <= |jobs|
    ensures month.None? || year.None? ==> r.totalJobs == |jobs|
    ensures month.Some? && year.Some? ==> r.totalJobs == CountCreatedIn(jobs, month.value, year.value)
    ensures r.activeJobs == CountWithActive(jobs, true) && r.expiredJobs == CountWithActive(jobs, false)
    ensures r.activeJobs + r.expiredJobs == |jobs|
  {
    var total := if month.Some? && year.Some? then CountCreatedIn(jobs, month.value, year.value) else |jobs|;
    ActivePlusInactive(jobs);
    JobStatistics(total, CountWithActive(jobs, true), CountWithActive(jobs, false))
  }

  /** Every job is either active or deactivated, so the two counts add up to the table size. */
  lemma {:induction false} ActivePlusInactive(jobs: seq<Job>)
    ensures CountWithActive(jobs, true) + CountWithActive(jobs, false) == |jobs|
    decreases |jobs|
  {
    if jobs != [] {
      ActivePlusInactive(jobs[1..]);
    }
  }

  /** Jobs that agree on everything but their expiration timestamps. */
  predicate SameButExpiration(jobs: seq<Job>, jobs': seq<Job>)
  {
    && |jobs| == |jobs'|
    && forall i :: 0 <= i < |jobs| ==> jobs'[i] == jobs[i].(expirationDate := jobs'[i].expirationDate)
  }

  /**
   * "Expired" means deactivated: the counters never look at the expiration
   * timestamp, so changing it changes no statistic.
   */
  lemma {:induction false} StatisticsIgnoreExpirationDate(jobs: seq<Job>, jobs': seq<Job>, month: Option<int>, year: Option<int>)
    requires SameButExpiration(jobs, jobs')
    ensures GetStatisticsJob(jobs, month, year) == GetStatisticsJob(jobs', month, year)
    decreases |jobs|
  {
    CountsIgnoreExpirationDate(jobs, jobs');
  }

  lemma {:induction false} CountsIgnoreExpirationDate(jobs: seq<Job>, jobs': seq<Job>)
    requires SameButExpiration(jobs, jobs')
    ensures forall active :: CountWithActive(jobs, active) == CountWithActive(jobs', active)
    ensures forall m, y :: CountCreatedIn(jobs, m, y) == CountCreatedIn(jobs', m, y)
    decreases |jobs|
  {
    if jobs != [] {
      assert jobs'[0] == jobs[0].(expirationDate := jobs'[0].expirationDate);
      assert SameButExpiration(jobs[1..], jobs'[1..]) by {
        forall i | 0 <= i < |jobs| - 1
          ensures jobs'[1..][i] == jobs[1..][i].(expirationDate := jobs'[1..][i].expirationDate)
        {
          assert jobs'[i + 1] == jobs[i + 1].(expirationDate := jobs'[i + 1].expirationDate);
        }
      }
      CountsIgnoreExpirationDate(jobs[1..], jobs'[1..]);
    }
  }
}
