/**
 * The job statistics page of the administration site (`stats_job_view`): it
 * settles which month to show, asks for the job counters of that month and
 * lists the months and years the page offers.
 */
module AdminStats {
  import opened Wrappers
  import opened Calendar
  import opened Models
  import opened Statistics

  datatype StatsJobContext = StatsJobContext(
    totalJobs: nat,
    currentYear: int,
    selectedMonth: int,
    selectedYear: int,
    months: seq<int>,
    years: seq<int>,
    activeJobs: nat,
    expiredJobs: nat)

  /**
   * The month and year to show: the requested ones when both are supplied,
   * otherwise the current month of the current year; a month requested
   * without a year, or a year without a month, is discarded.
   */
  function SelectedMonthYear(month: Option<int>, year: Option<int>, today: DateTime): (r: (int, int))
    ensures month.Some? && year.Some? ==> r == (month.value, year.value)
    ensures month.None? || year.None? ==> r == (today.month, today.year)
  {
    if month.None? || year.None? then (today.month, today.year) else (month.value, year.value)
  }

  /** The months offered: 1 to 12, ascending. */
  function MonthChoices(): (r: seq<int>)
    ensures |r| == 12
    ensures forall m :: m in r <==> 1 <= m <= 12
    ensures forall i, k :: 0 <= i < k < |r| ==> r[i] < r[k]
  {
    var r := seq(12, i => i + 1);
    assert forall m :: m in r <==> 1 <= m <= 12 by {
      forall m | 1 <= m <= 12 ensures m in r {
        assert r[m - 1] == m;
      }
    }
    r
  }

  /** The years offered: the six years ending with the current one, ascending. */
  function YearChoices(currentYear: int): (r: seq<int>)
    ensures |r| == 6
    ensures r[0] == currentYear - 5 && r[5] == currentYear
    ensures forall y :: y in r <==> currentYear - 5 <= y <= currentYear
    ensures forall i, k :: 0 <= i < k < |r| ==> r[i] < r[k]
  {
    var r := seq(6, i => currentYear - 5 + i);
    assert forall y :: y in r <==> currentYear - 5 <= y <= currentYear by {
      forall y | currentYear - 5 <= y <= currentYear ensures y in r {
        assert r[y - currentYear + 5] == y;
      }
    }
    r
  }

  /**
   * `stats_job_view`, on a clock reading `today`: the counters come unchanged
   * from `get_statistics_job` for the selected month, which is always
   * supplied, so the total counts exactly the jobs created in that month.
   */
  function StatsJobView(jobs: seq<Job>, month: Option<int>, year: Option<int>, today: DateTime): (c: StatsJobContext)
    ensures (c.selectedMonth, c.selectedYear) == SelectedMonthYear(month, year, today)
    ensures c.currentYear == today.year
    ensures c.totalJobs == CountCreatedIn(jobs, c.selectedMonth, c.selectedYear)
    ensures var s := GetStatisticsJob(jobs, Some(c.selectedMonth), Some(c.selectedYear));
      c.totalJobs == s.totalJobs && c.activeJobs == s.activeJobs && c.expiredJobs == s.expiredJobs
    ensures c.activeJobs + c.expiredJobs == |jobs|
    ensures c.months == MonthChoices() && c.years == YearChoices(today.year)
  {
    var (m, y) := SelectedMonthYear(month, year, today);
    var stats := GetStatisticsJob(jobs, Some(m), Some(y));
    StatsJobContext(stats.totalJobs, today.year, m, y, MonthChoices(), YearChoices(today.year), stats.activeJobs, stats.expiredJobs)
  }
}
