# Job board query layer, in Dafny

This project models the core of a Django job-board backend. Employers post
jobs, job seekers search them, save them and apply to them, and an
administrator looks at counters. It covers four pieces:

- **Job queries** (`JobQuery`): `search`, `jobs_by_employer`, `recommend` and
  `high_salary_jobs`.
  - A query is the list of Django lookups the action conjoins with
    `query &= Q(...)`.
  - `Rows` is what the database returns before `.distinct()`. The join with
    the technology table repeats a job once per requested technology it
    carries.
  - `Distinct` keeps the first copy of each row.
  - `Select` is the reference meaning of a query: the matching jobs, once
    each. The model returns them in table order; the program leaves the order
    of these querysets open (see "Left out").
  - `icontains` is `Contains(Lower(field), Lower(needle))` with ASCII
    lower-casing.
- **Applications and saved jobs** (`Applications`, `SavedJobs`):
  - `apply_job` and `SaveJobViewSet.create`/`destroy` are methods of classes
    whose row sequences they reassign.
  - The employer listings `employer_apply` and `employer_apply_new` are
    filters over the application table.
- **Statistics** (`Statistics`, `AdminStats`): `get_statistics_user`,
  `get_statistics_job`, and the month/year defaulting and choice lists of the
  administration page `stats_job_view`.
- **Service subscriptions** (`Services`, `Calendar`):
  - `EmployerService.save` fills a missing end date with
    `start + relativedelta(months=duration)`. The day is clamped to the end of
    the target month.
  - `is_service_active` is true while `now` is strictly before that date.

Conventions:
- Tables are sequences of records.
- The clock reading `now` is a parameter.
- A request string is an `Option`. `None` stands for every value Python
  treats as false (missing, `None`, `""`; for the saved-job `job_id` and
  for month and year passed as integers also `0`).
- The job table's primary key is the predicate `UniqueIds`. The lemmas that
  fix the order of a result assume it.

What the code does, and the model with it:
- `recommend` narrows only by the seeker's experience and location. It never
  reads the seeker's technologies (`ejobs/jobs/views.py:183-192`).
  `RecommendIsSearch` and `RecommendIgnoresTechnologies` state this.
- The counters cover the whole job table. Only `total_jobs` is filtered by
  month (`ejobs/jobs/utils.py:30-42`).
- "Expired jobs" are deactivated jobs (`is_active == False`). The counters
  never look at the expiration date.
- None of these actions computes distances or paginates.

## Model

| member | source | states |
|---|---|---|
| JobQuery.LiveQuery | ejobs/jobs/views.py:143 | the base lookup matches a job exactly when it is active and its expiration is not before `now` |
| JobQuery.RowCount | ejobs/jobs/views.py:145-147 | the filtered join yields a job at least once exactly when the job satisfies every lookup |
| JobQuery.Distinct | ejobs/jobs/views.py:162 | `.distinct()` leaves no row twice and keeps every row value that was there |
| JobQuery.Rows | ejobs/jobs/views.py:162 | the unfiltered-for-duplicates result holds exactly the matching jobs of the table |
| JobQuery.DistinctRowsIsSelect | ejobs/jobs/views.py:162 | on a table without duplicate rows, `.distinct()` over the join gives each matching job once, in the table order the model chooses |
| JobQuery.NarrowByText | ejobs/jobs/views.py:148-159 | a supplied parameter adds a case-insensitive substring test on its column; an absent or empty one leaves the query's meaning unchanged |
| JobQuery.SearchQuery | ejobs/jobs/views.py:136-159 | the built query matches a job iff it is live, shares a technology when any is requested, and contains each supplied salary, location, experience and title |
| JobQuery.Search | ejobs/jobs/views.py:132-164 | `search` returns each job of the table that meets every supplied parameter, and no job twice |
| JobQuery.SearchIsSelect | ejobs/jobs/views.py:162 | on the job table `search` returns exactly the reference selection: the matching jobs once each, in the table order the model chooses |
| JobQuery.SearchWithoutParamsIsLive | ejobs/jobs/views.py:143-162 | with no parameters `search` returns exactly the live jobs |
| JobQuery.SearchNarrowing | ejobs/jobs/views.py:143-162 | supplying more parameters never enlarges the result: the narrower result is the wider one filtered again, no longer, and contained in it |
| JobQuery.TechnologyFilterIsUnion | ejobs/jobs/views.py:145-147 | a job tagged {a, b} matches a request for [b, c]; a job sharing no requested id does not |
| JobQuery.DistinctRemovesJoinDuplicates | ejobs/jobs/views.py:145-162 | a live job with two requested technologies comes out of the join twice and out of `search` once |
| JobQuery.EmployerQuery | ejobs/jobs/views.py:171-175 | the lookup matches a job iff the employer posted it and it is live |
| JobQuery.JobsByEmployer | ejobs/jobs/views.py:166-177 | `jobs_by_employer` returns exactly the employer's live jobs, without a join, in the table order the model chooses |
| JobQuery.Recommend | ejobs/jobs/views.py:179-198 | `recommend` returns, once each, the live jobs containing the seeker's experience and location, each test applied only when the profile has that value |
| JobQuery.RecommendQuery | ejobs/jobs/views.py:187-192 | the built query matches a job iff it is live and contains the seeker's experience and location, each test only when the profile has that value |
| JobQuery.RecommendIsSearch | ejobs/jobs/views.py:183-194 | `recommend` equals `search` with only the seeker's location and experience supplied |
| JobQuery.RecommendIgnoresTechnologies | ejobs/jobs/views.py:183-192 | changing the seeker's technologies does not change the recommendations |
| JobQuery.HighSalaryQuery | ejobs/jobs/views.py:204-207 | the lookup matches a job iff it is live and its salary label is one of the four high labels |
| JobQuery.SortBySalaryDescCorrect | ejobs/jobs/views.py:208 | `order_by('-salary')` yields a permutation whose labels never increase |
| JobQuery.HighSalaryJobs | ejobs/jobs/views.py:204-208 | the slice returns at most 20 jobs; `HighSalaryJobsSpec` states the rest |
| JobQuery.HighSalaryJobsSpec | ejobs/jobs/views.py:200-211 | `high_salary_jobs` returns min(20, candidates) live high-label jobs, in descending label order, drawn from the candidates, and every candidate left out has a label no greater than any returned |
| JobQuery.HighSalaryLabelsSortByPay | ejobs/jobs/views.py:207-208 | for the four labels, lexicographic order agrees with the order of pay |
| Text.EmptyNeedleMatchesAll | ejobs/jobs/views.py:148-159 | an empty needle is contained in every field, so skipping an empty parameter selects what applying it would |
| Text.IContainsIgnoresCase | ejobs/jobs/views.py:150 | `icontains` gives the same answer for a needle and its lower-cased form |
| Applications.EmployerJobIds | ejobs/jobs/views.py:271 | the ids are exactly those of the jobs the employer posted, live or not |
| Applications.WithStatus | ejobs/jobs/views.py:274 | an application is listed iff it is in the table, belongs to one of the jobs and has one of the statuses; the listing is no longer than the table |
| Applications.EmployerApply | ejobs/jobs/views.py:265-276 | an application is listed iff it is in the table, its job was posted by the employer, and its status is open |
| Applications.EmployerApplyNew | ejobs/jobs/views.py:278-289 | an application is listed iff it is in the table, its job was posted by the employer, and its status is pending or closed |
| Applications.EmployerListingsPartition | ejobs/jobs/views.py:265-289 | `employer_apply` and `employer_apply_new` split the applications to the employer's jobs: each is in exactly one, and the sizes add up |
| Applications.NewApplicationIsListedAsNew | ejobs/jobs/views.py:278-289 | a just-created application to the employer's job appears in `employer_apply_new` and not in `employer_apply` |
| Applications.ApplicationTable.ApplyJob | ejobs/jobs/views.py:234-256 | without a cover letter or CV it answers 400 and creates nothing; otherwise it appends exactly one pending application with a fresh id |
| SavedJobs.CreateReply | ejobs/jobs/views.py:313-323 | `create` succeeds iff a job id is supplied and the (seeker, job) pair is not yet saved; it otherwise answers 400 |
| SavedJobs.AfterCreate | ejobs/jobs/views.py:321-326 | after `create` the old rows stay in place; the table grows by one row exactly when `create` succeeds, that row is the new pair, and no pair is ever duplicated |
| SavedJobs.Without | ejobs/jobs/views.py:334-335 | deleting the pair keeps every other row; without duplicates it removes exactly one row, and an absent pair changes nothing |
| SavedJobs.DestroyReply | ejobs/jobs/views.py:331-338 | `destroy` answers 204 iff the pair is saved and 404 otherwise |
| SavedJobs.CreateThenDestroy | ejobs/jobs/views.py:313-338 | saving a job and then removing it restores the table |
| SavedJobs.DestroyThenCreate | ejobs/jobs/views.py:313-338 | after removing a saved job, saving it again succeeds |
| SavedJobs.SaveJobTable.Create | ejobs/jobs/views.py:313-329 | the table keeps its no-duplicate invariant and becomes `AfterCreate` of the old table |
| SavedJobs.SaveJobTable.Destroy | ejobs/jobs/views.py:331-338 | the pair's row is removed and the others kept; on 404 the table is unchanged |
| Models.NewJob | ejobs/jobs/models.py:93 | a job starts active |
| Models.NewApplication | ejobs/jobs/models.py:105-108 | an application starts pending and active |
| Models.NewService | ejobs/jobs/models.py:131-132 | a service starts with duration 1 and active |
| Statistics.CountVerified | ejobs/jobs/utils.py:14 | the verified employers are never more than the employers; none are counted iff no employer is approved, and all iff every one is |
| Statistics.CountWithActive | ejobs/jobs/utils.py:39-42 | never more than the jobs; zero iff no job has the given `is_active` value, and all iff every job has it |
| Statistics.CountCreatedIn | ejobs/jobs/utils.py:31-34 | the jobs created in a month are never more than the jobs, and zero iff no job was created in that month |
| Statistics.GetStatisticsUser | ejobs/jobs/utils.py:6-25 | the user total is one fewer than the table holds; employer and seeker totals are the table sizes; verified employers are the approved ones counted, and no more than the employers |
| Statistics.GetStatisticsJob | ejobs/jobs/utils.py:28-49 | with both month and year the total counts the jobs created in that month, otherwise it is the job count; active and expired count the jobs with `is_active` true and false, and add up to the job count |
| Statistics.ActivePlusInactive | ejobs/jobs/utils.py:38-42 | active and deactivated jobs add up to the table size |
| Statistics.StatisticsIgnoreExpirationDate | ejobs/jobs/utils.py:39-42 | changing expiration dates changes no counter: "expired" means deactivated |
| AdminStats.SelectedMonthYear | ejobs/ejobs/admin.py:37-45 | both requested values are kept when both are supplied; otherwise both become the current month and year, so a lone month is discarded |
| AdminStats.MonthChoices | ejobs/ejobs/admin.py:50 | the months offered are exactly 1..12, strictly ascending |
| AdminStats.YearChoices | ejobs/ejobs/admin.py:51-52 | six years, strictly ascending, from five years back to the current year, which comes last |
| AdminStats.StatsJobView | ejobs/ejobs/admin.py:35-64 | the context copies the counters of `get_statistics_job` for the selected month, whose total counts exactly the jobs created then |
| Calendar.AddMonths | ejobs/jobs/models.py:149 | the result is a real date exactly n months later, at the same time of day, on the same day or clamped to the last day of the target month |
| Calendar.AddMonthsIsLater | ejobs/jobs/models.py:149 | adding a positive number of months gives a strictly later timestamp |
| Services.EndDateOnSave | ejobs/jobs/models.py:146-150 | an end date already set is kept; a missing one becomes a real date exactly `duration` months after the start, at the same time of day, on the same day or clamped to the last day of the target month |
| Services.SaveIsIdempotent | ejobs/jobs/models.py:148-150 | saving a second time leaves the end date unchanged |
| Services.DefaultEndIsAfterStart | ejobs/jobs/models.py:149 | a subscription of at least one month ends strictly after it starts |
| Services.EmployerService.constructor | ejobs/jobs/models.py:138-144 | a new subscription is active |
| Services.EmployerService.Save | ejobs/jobs/models.py:146-150 | `save` sets the end date as `EndDateOnSave` says and changes no other field |
| Services.EmployerService.IsServiceActive | ejobs/jobs/models.py:152-155 | active iff `is_active` and `now` is strictly before the end date; false at the end date |
| Services.ActiveFromStartUntilEnd | ejobs/jobs/models.py:146-155 | a freshly saved active subscription is active at its start and inactive at its end |

## Left out

- Geo-proximity search (distance, radius) appears in none of the modelled
  actions. Latitude and longitude are floating-point columns and are not
  modelled.
- Pagination: the modelled actions return whole querysets.
- Serializers, permission classes, URL routing, admin registrations, Swagger
  and OAuth wiring, migrations, Cloudinary uploads and template rendering are
  library configuration. HTTP replies are reduced to a status tag.
- `UserViewSet` profile updates and `list_employer_jobs`, `seeker_apply`,
  `apply_detail` and `SaveJobViewSet.list` are outside the modelled core.
- Text matching: `icontains` lower-cases ASCII letters only. The database's
  Unicode case folding (such as that of Vietnamese letters) is not modelled.
- `order_by('-salary')` compares labels code point by code point. A database
  collation may order them differently.
- The order of rows with equal salary labels is left open by the database.
  The model fixes one order.
- Querysets without `order_by` have no defined order: `search`, `recommend`,
  `jobs_by_employer` and the two employer listings may come back in any order.
  The model returns them in table order, so the order facts of `Select`,
  `DistinctRowsIsSelect`, `SearchIsSelect`, `JobsByEmployer` and
  `RecommendIsSearch` describe that choice, not a promise of the program.
- Parsing of request strings is not modelled. Technology ids, job ids, month
  and year arrive as integers. A non-numeric value, which makes the program
  raise, is not modelled.
- Clocks: `now` and `today` are parameters.
  - Time zones and sub-second precision are not modelled.
  - `stats_job_view` reads the clock twice, at lines 40 and 44 of
    `ejobs/ejobs/admin.py`. The model uses one reading, so a year change
    between the two reads is not captured.
- Unhandled failures of the program are left out:
  - `recommend` for a user without a seeker profile: the model takes the
    profile as input.
  - `Job.objects.get` on an unknown id in `apply_job` and
    `SaveJobViewSet.create` becomes a `requires` that the id names a job.
  - `is_service_active` calls `now()` on `datetime.timezone`, which has no such
    function. The model takes the clock reading as a parameter.
  - `save` reads `start_date` before `auto_now_add` has filled it: the model
    treats the start date as given.
  - `is_service_active` on an unset end date: the model requires one.
- Calendar range: Python dates stop at years 1 and 9999, and a month addition
  beyond them raises. The model's years are unbounded.
- Columns that no modelled behaviour reads are dropped: description,
  requirements, location detail, quantity, the application's email, phone and
  name, and the service's descriptions.
- Concurrency and transactions are not modelled. Each action is one atomic
  step.
