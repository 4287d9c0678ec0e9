/**
 * The read-only job queries of the job view set: `search`, `jobs_by_employer`,
 * `recommend` and `high_salary_jobs`.
 *
 * Each action builds a conjunction of Django lookups (`query &= Q(...)`), runs
 * it against the job table and possibly applies `.distinct()`, `order_by` and a
 * slice. A query is modelled as the list of its lookups; `Rows` is what the
 * database returns for it before `.distinct()` (the join with the technology
 * table repeats a job once per requested technology it has), `Distinct` keeps
 * the first copy of each row, and `Select` is the reference meaning: the
 * matching jobs of the table, once each, in table order.
 */
module JobQuery {
  import opened Wrappers
  import opened Seqs
  import opened Text
  import opened Calendar
  import opened Models

  /** The text columns a request can search with `icontains`. */
  datatype Field = Salary | Location | Experience | Title

  function FieldText(j: Job, f: Field): string
  {
    match f
    case Salary => j.salary
    case Location => j.location
    case Experience => j.experience
    case Title => j.title
  }

  /** One lookup of a `Q` object or `filter` call. */
  datatype Cond =
    | IsActive                              // is_active=True
    | ExpiresNotBefore(now: DateTime)       // expiration_date__gte=now
    | TechnologyIn(ids: seq<int>)           // technologies__id__in=ids
    | TextContains(field: Field, needle: string)  // <field>__icontains=needle
    | EmployerIs(employerId: int)           // employer_id=pk
    | SalaryIn(labels: seq<string>)         // salary__in=labels

  /** A conjunction of lookups, in the order `&=` added them. */
  type Query = seq<Cond>

  predicate SharesTechnology(j: Job, ids: seq<int>)
  {
    exists t :: t in ids && t in j.technologies
  }

  predicate Holds(j: Job, c: Cond)
  {
    match c
    case IsActive => j.isActive
    case ExpiresNotBefore(now) => !Before(j.expirationDate, now)
    case TechnologyIn(ids) => SharesTechnology(j, ids)
    case TextContains(f, needle) => IContains(FieldText(j, f), needle)
    case EmployerIs(e) => j.employerId == e
    case SalaryIn(labels) => j.salary in labels
  }

  predicate Matches(j: Job, q: Query)
  {
    forall c :: c in q ==> Holds(j, c)
  }

  /** `query &= Q(c)`: the extended query matches the jobs that match both. */
  lemma MatchesAppend(q: Query, c: Cond)
    ensures forall j :: Matches(j, q + [c]) <==> Matches(j, q) && Holds(j, c)
  {
    assert c in q + [c];
    assert forall d :: d in q ==> d in q + [c];
  }

  /** A live job: active and not yet past its expiration timestamp. */
  predicate IsLive(j: Job, now: DateTime)
  {
    j.isActive && !Before(j.expirationDate, now)
  }

  /** The base lookup of every seeker-facing query. */
  function LiveQuery(now: DateTime): (q: Query)
    ensures forall j :: Matches(j, q) <==> IsLive(j, now)
  {
    assert [IsActive, ExpiresNotBefore(now)] == [IsActive] + [ExpiresNotBefore(now)];
    MatchesAppend([IsActive], ExpiresNotBefore(now));
    assert IsActive in [IsActive];
    [IsActive, ExpiresNotBefore(now)]
  }

  // ---------------------------------------------------------------------------
  // What the database returns

  /** How many joined rows one lookup yields for job `j`. */
  function JoinWeight(j: Job, c: Cond): (n: nat)
    ensures n > 0 <==> Holds(j, c)
  {
    match c
    case TechnologyIn(ids) =>
      var shared := j.technologies * set t | t in ids;
      assert SharesTechnology(j, ids) <==> |shared| > 0 by {
        if SharesTechnology(j, ids) {
          var t :| t in ids && t in j.technologies;
          assert t in shared;
        }
        if |shared| > 0 {
          NonEmptyHasMember(shared);
        }
      }
      |shared|
    case _ => if Holds(j, c) then 1 else 0
  }

  lemma NonEmptyHasMember(s: set<int>)
    requires |s| > 0
    ensures exists t :: t in s
  {
    if forall t :: t !in s {
      assert false;
    }
  }

  /** How many rows the query yields for job `j`: zero exactly when the job does not match. */
  function RowCount(j: Job, q: Query): (n: nat)
    ensures n > 0 <==> Matches(j, q)
  {
    if q == [] then 1
    else
      assert forall c :: c in q <==> c == q[0] || c in q[1..];
      JoinWeight(j, q[0]) * RowCount(j, q[1..])
  }

  /** `Job.objects.filter(q)` without `.distinct()`: each job of the table, in table order, as many times as the join yields it. */
  function Rows(store: seq<Job>, q: Query): (rows: seq<Job>)
    ensures forall x :: x in rows ==> x in store && Matches(x, q)
    ensures forall x :: x in store && Matches(x, q) ==> x in rows
  {
    if store == [] then []
    else
      var init, last := store[..|store| - 1], store[|store| - 1];
      assert store == init + [last];
      Rows(init, q) + Repeat(last, RowCount(last, q))
  }

  /** The meaning of a query: the jobs of the table that match it, once each, in table order. */
  function Select(store: seq<Job>, q: Query): (r: seq<Job>)
    ensures |r| <= |store|
    ensures forall x :: x in r <==> x in store && Matches(x, q)
  {
    if store == [] then []
    else
      var init, last := store[..|store| - 1], store[|store| - 1];
      assert store == init + [last];
      Select(init, q) + (if Matches(last, q) then [last] else [])
  }

  /** `.distinct()`: the first copy of each row, in order. */
  function Distinct(rows: seq<Job>): (r: seq<Job>)
    ensures NoDuplicates(r)
    ensures forall x :: x in r <==> x in rows
  {
    if rows == [] then []
    else
      var init, last := rows[..|rows| - 1], rows[|rows| - 1];
      assert rows == init + [last];
      var kept := Distinct(init);
      if last in kept then kept else kept + [last]
  }

  lemma {:induction false} DistinctAppendRepeat(rows: seq<Job>, x: Job, k: nat)
    requires x !in rows
    ensures Distinct(rows + Repeat(x, k)) == Distinct(rows) + (if k > 0 then [x] else [])
    decreases k
  {
    if k == 0 {
      assert rows + Repeat(x, 0) == rows;
    } else {
      var s := rows + Repeat(x, k);
      DistinctAppendRepeat(rows, x, k - 1);
      assert s[..|s| - 1] == rows + Repeat(x, k - 1);
      assert s[|s| - 1] == x;
    }
  }

  /**
   * On a table without duplicate rows, `.distinct()` undoes the repetitions of
   * the technology join: the result is exactly the matching jobs, once each, in
   * table order.
   */
  lemma {:induction false} DistinctRowsIsSelect(store: seq<Job>, q: Query)
    requires NoDuplicates(store)
    ensures Distinct(Rows(store, q)) == Select(store, q)
    decreases |store|
  {
    if store != [] {
      var init, last := store[..|store| - 1], store[|store| - 1];
      assert NoDuplicates(init);
      assert last !in init;
      DistinctRowsIsSelect(init, q);
      DistinctAppendRepeat(Rows(init, q), last, RowCount(last, q));
    }
  }

  lemma UniqueIdsNoDuplicates(store: seq<Job>)
    requires UniqueIds(store)
    ensures NoDuplicates(store)
  {
  }

  /** Without a technology lookup there is no join, so every matching job comes back exactly once. */
  lemma {:induction false} RowCountWithoutJoin(j: Job, q: Query)
    requires forall c :: c in q ==> !c.TechnologyIn?
    ensures RowCount(j, q) == if Matches(j, q) then 1 else 0
    decreases |q|
  {
    if q != [] {
      assert q[0] in q;
      assert forall c :: c in q[1..] ==> c in q;
      RowCountWithoutJoin(j, q[1..]);
    }
  }

  lemma {:induction false} RowsWithoutJoin(store: seq<Job>, q: Query)
    requires forall c :: c in q ==> !c.TechnologyIn?
    ensures Rows(store, q) == Select(store, q)
    decreases |store|
  {
    if store != [] {
      var init, last := store[..|store| - 1], store[|store| - 1];
      RowsWithoutJoin(init, q);
      RowCountWithoutJoin(last, q);
    }
  }

  /** Queries that agree on every job select the same jobs. */
  lemma {:induction false} SelectEquivalent(store: seq<Job>, q: Query, q': Query)
    requires forall j :: Matches(j, q) <==> Matches(j, q')
    ensures Select(store, q) == Select(store, q')
    decreases |store|
  {
    if store != [] {
      SelectEquivalent(store[..|store| - 1], q, q');
    }
  }

  lemma {:induction false} SelectAppend(a: seq<Job>, b: seq<Job>, q: Query)
    ensures Select(a + b, q) == Select(a, q) + Select(b, q)
    decreases |b|
  {
    if b == [] {
      assert a + b == a;
    } else {
      var s := a + b;
      var b0, last := b[..|b| - 1], b[|b| - 1];
      var tail := if Matches(last, q) then [last] else [];
      assert s[..|s| - 1] == a + b0;
      assert s[|s| - 1] == last;
      assert Select(s, q) == Select(a + b0, q) + tail;
      assert Select(b, q) == Select(b0, q) + tail;
      SelectAppend(a, b0, q);
      assert Select(a, q) + Select(b0, q) + tail == Select(a, q) + (Select(b0, q) + tail);
    }
  }

  /** Filtering by a weaker query first and then by a stronger one is the same as filtering by the stronger one. */
  lemma {:induction false} SelectNarrows(store: seq<Job>, q: Query, q': Query)
    requires forall j :: Matches(j, q') ==> Matches(j, q)
    ensures Select(Select(store, q), q') == Select(store, q')
    decreases |store|
  {
    if store != [] {
      var init, last := store[..|store| - 1], store[|store| - 1];
      SelectNarrows(init, q, q');
      SelectAppend(Select(init, q), if Matches(last, q) then [last] else [], q');
      assert Select([last], q') == (if Matches(last, q') then [last] else []) by {
        assert [last][..0] == [];
      }
    }
  }

  // ---------------------------------------------------------------------------
  // search

  /**
   * The query parameters of `search`: the repeated `technologies` ids and the
   * optional `salary`, `location`, `experience` and `title` strings.
   */
  datatype SearchParams = SearchParams(
    technologies: seq<int>,
    salary: Option<string>,
    location: Option<string>,
    experience: Option<string>,
    title: Option<string>)

  /** `if value: query &= Q(<field>__icontains=value)`. */
  function NarrowByText(q: Query, f: Field, value: Option<string>): (r: Query)
    ensures forall j :: Matches(j, r) <==> Matches(j, q) && (Supplied(value) ==> IContains(FieldText(j, f), value.value))
  {
    if Supplied(value) then
      MatchesAppend(q, TextContains(f, value.value));
      q + [TextContains(f, value.value)]
    else q
  }

  /** What `search` asks of a job, parameter by parameter. */
  predicate SearchMatch(j: Job, now: DateTime, p: SearchParams)
  {
    && IsLive(j, now)
    && (|p.technologies| > 0 ==> SharesTechnology(j, p.technologies))
    && (Supplied(p.salary) ==> IContains(j.salary, p.salary.value))
    && (Supplied(p.location) ==> IContains(j.location, p.location.value))
    && (Supplied(p.experience) ==> IContains(j.experience, p.experience.value))
    && (Supplied(p.title) ==> IContains(j.title, p.title.value))
  }

  /** The `Q` object `search` builds: the live-job base, then one lookup per supplied parameter. */
  function SearchQuery(now: DateTime, p: SearchParams): (q: Query)
    ensures forall j :: Matches(j, q) <==> SearchMatch(j, now, p)
  {
    var live := LiveQuery(now);
    MatchesAppend(live, TechnologyIn(p.technologies));
    var withTechnologies := if |p.technologies| > 0 then live + [TechnologyIn(p.technologies)] else live;
    var withSalary := NarrowByText(withTechnologies, Salary, p.salary);
    var withLocation := NarrowByText(withSalary, Location, p.location);
    var withExperience := NarrowByText(withLocation, Experience, p.experience);
    NarrowByText(withExperience, Title, p.title)
  }

  /** `search`: every job returned matches every supplied parameter, every matching job is returned, and none twice. */
  function Search(store: seq<Job>, now: DateTime, p: SearchParams): (r: seq<Job>)
    ensures NoDuplicates(r)
    ensures forall j :: j in r <==> j in store && SearchMatch(j, now, p)
  {
    Distinct(Rows(store, SearchQuery(now, p)))
  }

  /** On the job table (unique ids) `search` returns the matching jobs in table order. */
  lemma SearchIsSelect(store: seq<Job>, now: DateTime, p: SearchParams)
    requires UniqueIds(store)
    ensures Search(store, now, p) == Select(store, SearchQuery(now, p))
  {
    DistinctRowsIsSelect(store, SearchQuery(now, p));
  }

  const NoSearchParams := SearchParams([], None, None, None, None)

  /** With no parameters `search` returns exactly the live jobs, in table order. */
  lemma SearchWithoutParamsIsLive(store: seq<Job>, now: DateTime)
    requires UniqueIds(store)
    ensures Search(store, now, NoSearchParams) == Select(store, LiveQuery(now))
    ensures forall j :: j in Search(store, now, NoSearchParams) <==> j in store && IsLive(j, now)
  {
    SearchIsSelect(store, now, NoSearchParams);
    SelectEquivalent(store, SearchQuery(now, NoSearchParams), LiveQuery(now));
  }

  /** `p'` keeps every parameter `p` supplies and may supply more. */
  predicate Refines(p': SearchParams, p: SearchParams)
  {
    && (|p.technologies| > 0 ==> p'.technologies == p.technologies)
    && (Supplied(p.salary) ==> p'.salary == p.salary)
    && (Supplied(p.location) ==> p'.location == p.location)
    && (Supplied(p.experience) ==> p'.experience == p.experience)
    && (Supplied(p.title) ==> p'.title == p.title)
  }

  /**
   * Filters combine by conjunction: supplying more parameters never enlarges
   * the result, and the narrower search is the wider one's result filtered
   * again.
   */
  lemma SearchNarrowing(store: seq<Job>, now: DateTime, p: SearchParams, p': SearchParams)
    requires UniqueIds(store)
    requires Refines(p', p)
    ensures Search(store, now, p') == Select(Search(store, now, p), SearchQuery(now, p'))
    ensures |Search(store, now, p')| <= |Search(store, now, p)|
    ensures forall j :: j in Search(store, now, p') ==> j in Search(store, now, p)
  {
    SearchIsSelect(store, now, p);
    SearchIsSelect(store, now, p');
    SelectNarrows(store, SearchQuery(now, p), SearchQuery(now, p'));
  }

  /** The technology filter is a union test: tags {a, b} match a request for [b, c]; a job sharing no requested id is left out. */
  lemma TechnologyFilterIsUnion(j: Job, now: DateTime, a: int, b: int, c: int)
    requires IsLive(j, now) && j.technologies == {a, b}
    ensures SearchMatch(j, now, NoSearchParams.(technologies := [b, c]))
    ensures a != c && b != c ==> !SearchMatch(j, now, NoSearchParams.(technologies := [c]))
  {
    assert b in [b, c] && b in j.technologies;
  }

  /**
   * Why `search` needs `.distinct()`: a live job tagged with two requested
   * technologies comes out of the join twice, but is returned once.
   */
  lemma {:induction false} DistinctRemovesJoinDuplicates(j: Job, now: DateTime)
    requires IsLive(j, now) && j.technologies == {1, 2}
    ensures Rows([j], SearchQuery(now, NoSearchParams.(technologies := [1, 2]))) == [j, j]
    ensures Search([j], now, NoSearchParams.(technologies := [1, 2])) == [j]
  {
    var q := SearchQuery(now, NoSearchParams.(technologies := [1, 2]));
    assert q == [IsActive, ExpiresNotBefore(now), TechnologyIn([1, 2])];
    assert (set t | t in [1, 2]) == {1, 2};
    assert j.technologies * {1, 2} == {1, 2};
    assert |{1, 2}| == 2;
    assert JoinWeight(j, TechnologyIn([1, 2])) == 2;
    assert RowCount(j, [TechnologyIn([1, 2])]) == 2 by {
      assert [TechnologyIn([1, 2])][1..] == [];
    }
    assert RowCount(j, [ExpiresNotBefore(now), TechnologyIn([1, 2])]) == 2 by {
      assert [ExpiresNotBefore(now), TechnologyIn([1, 2])][1..] == [TechnologyIn([1, 2])];
    }
    assert RowCount(j, q) == 2 by {
      assert q[1..] == [ExpiresNotBefore(now), TechnologyIn([1, 2])];
    }
    assert [j][..0] == [];
    assert Rows([j], q) == Repeat(j, 2);
    assert Distinct([j]) == [j];
    assert [j, j][..1] == [j];
  }

  // ---------------------------------------------------------------------------
  // jobs_by_employer

  function EmployerQuery(now: DateTime, employer: int): (q: Query)
    ensures forall j :: Matches(j, q) <==> j.employerId == employer && IsLive(j, now)
  {
    assert [EmployerIs(employer), IsActive, ExpiresNotBefore(now)] == [EmployerIs(employer)] + LiveQuery(now);
    assert forall j :: Matches(j, [EmployerIs(employer)] + LiveQuery(now)) <==> Holds(j, EmployerIs(employer)) && Matches(j, LiveQuery(now)) by {
      assert EmployerIs(employer) in [EmployerIs(employer)] + LiveQuery(now);
      assert forall c :: c in LiveQuery(now) ==> c in [EmployerIs(employer)] + LiveQuery(now);
    }
    [EmployerIs(employer), IsActive, ExpiresNotBefore(now)]
  }

  /** `jobs_by_employer`: the live jobs posted by the employer, once each, in table order. */
  function JobsByEmployer(store: seq<Job>, now: DateTime, employer: int): (r: seq<Job>)
    ensures r == Select(store, EmployerQuery(now, employer))
    ensures forall j :: j in r <==> j in store && j.employerId == employer && IsLive(j, now)
  {
    RowsWithoutJoin(store, EmployerQuery(now, employer));
    Rows(store, EmployerQuery(now, employer))
  }

  // ---------------------------------------------------------------------------
  // recommend

  /** The `Q` object `recommend` builds from the seeker profile: experience and location only. */
  function RecommendQuery(now: DateTime, seeker: Seeker): (q: Query)
    ensures forall j :: Matches(j, q) <==>
      && IsLive(j, now)
      && (Supplied(seeker.experience) ==> IContains(j.experience, seeker.experience.value))
      && (Supplied(seeker.location) ==> IContains(j.location, seeker.location.value))
  {
    NarrowByText(NarrowByText(LiveQuery(now), Experience, seeker.experience), Location, seeker.location)
  }

  /** `recommend`: the live jobs whose experience and location contain the seeker's, each only when the profile has one. */
  function Recommend(store: seq<Job>, now: DateTime, seeker: Seeker): (r: seq<Job>)
    ensures NoDuplicates(r)
    ensures forall j :: j in r <==>
      && j in store
      && IsLive(j, now)
      && (Supplied(seeker.experience) ==> IContains(j.experience, seeker.experience.value))
      && (Supplied(seeker.location) ==> IContains(j.location, seeker.location.value))
  {
    Distinct(Rows(store, RecommendQuery(now, seeker)))
  }

  /** `recommend` is `search` with the seeker's location and experience and nothing else: the seeker's technologies play no role. */
  lemma RecommendIsSearch(store: seq<Job>, now: DateTime, seeker: Seeker)
    requires UniqueIds(store)
    ensures Recommend(store, now, seeker)
         == Search(store, now, NoSearchParams.(location := seeker.location, experience := seeker.experience))
  {
    var p := NoSearchParams.(location := seeker.location, experience := seeker.experience);
    UniqueIdsNoDuplicates(store);
    DistinctRowsIsSelect(store, RecommendQuery(now, seeker));
    SearchIsSelect(store, now, p);
    SelectEquivalent(store, RecommendQuery(now, seeker), SearchQuery(now, p));
  }

  lemma RecommendIgnoresTechnologies(store: seq<Job>, now: DateTime, seeker: Seeker, technologies: set<int>)
    ensures Recommend(store, now, seeker) == Recommend(store, now, seeker.(technologies := technologies))
  {
  }

  // ---------------------------------------------------------------------------
  // high_salary_jobs

  /** The salary tier labels `high_salary_jobs` accepts: 20 million dong a month and up. */
  const HighSalaryLabels: seq<string> := ["20 - 25 triệu", "25 - 30 triệu", "30 - 50 triệu", "Trên 50 triệu"]

  const HighSalaryLimit: nat := 20

  function HighSalaryQuery(now: DateTime): (q: Query)
    ensures forall j :: Matches(j, q) <==> IsLive(j, now) && j.salary in HighSalaryLabels
  {
    assert [IsActive, ExpiresNotBefore(now), SalaryIn(HighSalaryLabels)] == LiveQuery(now) + [SalaryIn(HighSalaryLabels)];
    MatchesAppend(LiveQuery(now), SalaryIn(HighSalaryLabels));
    [IsActive, ExpiresNotBefore(now), SalaryIn(HighSalaryLabels)]
  }

  /** Ordered as by `order_by('-salary')`: labels never increase along the sequence. */
  ghost predicate SalaryDescending(s: seq<Job>)
  {
    forall i, k :: 0 <= i < k < |s| ==> LexLe(s[k].salary, s[i].salary)
  }

  function InsertBySalary(j: Job, s: seq<Job>): seq<Job>
  {
    if s == [] then [j]
    else if LexLe(s[0].salary, j.salary) then [j] + s
    else [s[0]] + InsertBySalary(j, s[1..])
  }

  /** Sorting by descending salary label. */
  function SortBySalaryDesc(s: seq<Job>): seq<Job>
  {
    if s == [] then [] else InsertBySalary(s[0], SortBySalaryDesc(s[1..]))
  }

  /** A job may head a descending sequence exactly when no label in it is greater. */
  lemma SalaryDescendingCons(x: Job, s: seq<Job>)
    ensures SalaryDescending([x] + s) <==> SalaryDescending(s) && forall y :: y in s ==> LexLe(y.salary, x.salary)
  {
    var r := [x] + s;
    if SalaryDescending(s) && forall y :: y in s ==> LexLe(y.salary, x.salary) {
      forall i, k | 0 <= i < k < |r| ensures LexLe(r[k].salary, r[i].salary) {
        assert r[k] == s[k - 1];
        if i > 0 {
          assert r[i] == s[i - 1];
        } else {
          assert s[k - 1] in s;
        }
      }
    }
    if SalaryDescending(r) {
      forall i, k | 0 <= i < k < |s| ensures LexLe(s[k].salary, s[i].salary) {
        assert r[i + 1] == s[i] && r[k + 1] == s[k];
      }
      forall y | y in s ensures LexLe(y.salary, x.salary) {
        var k :| 0 <= k < |s| && s[k] == y;
        assert r[k + 1] == y && r[0] == x;
      }
    }
  }

  lemma {:induction false} InsertBySalaryCorrect(j: Job, s: seq<Job>)
    requires SalaryDescending(s)
    ensures SalaryDescending(InsertBySalary(j, s))
    ensures multiset(InsertBySalary(j, s)) == multiset(s) + multiset{j}
    decreases |s|
  {
    if s == [] {
    } else {
      assert s == [s[0]] + s[1..];
      SalaryDescendingCons(s[0], s[1..]);
      if LexLe(s[0].salary, j.salary) {
        forall y | y in s ensures LexLe(y.salary, j.salary) {
          if y != s[0] {
            assert y in s[1..];
            LexLeTransitive(y.salary, s[0].salary, j.salary);
          }
        }
        SalaryDescendingCons(j, s);
      } else {
        LexLeTotal(s[0].salary, j.salary);
        InsertBySalaryCorrect(j, s[1..]);
        var rest := InsertBySalary(j, s[1..]);
        forall y | y in rest ensures LexLe(y.salary, s[0].salary) {
          assert y in multiset(rest);
          if y != j {
            assert y in multiset(s[1..]);
            assert y in s[1..];
          }
        }
        SalaryDescendingCons(s[0], rest);
      }
    }
  }

  /** `order_by('-salary')` is a permutation with labels in non-increasing order. */
  lemma {:induction false} SortBySalaryDescCorrect(s: seq<Job>)
    ensures SalaryDescending(SortBySalaryDesc(s))
    ensures multiset(SortBySalaryDesc(s)) == multiset(s)
    decreases |s|
  {
    if s != [] {
      SortBySalaryDescCorrect(s[1..]);
      InsertBySalaryCorrect(s[0], SortBySalaryDesc(s[1..]));
      assert s == [s[0]] + s[1..];
    }
  }

  /**
   * `high_salary_jobs`: at most 20 live jobs carrying one of the four high
   * salary labels, in descending label order; they are the candidates with the
   * greatest labels, so every candidate left out has a label no greater than
   * any returned one.
   */
  function HighSalaryJobs(store: seq<Job>, now: DateTime): (r: seq<Job>)
    ensures |r| <= HighSalaryLimit
  {
    Take(SortBySalaryDesc(Rows(store, HighSalaryQuery(now))), HighSalaryLimit)
  }

  lemma HighSalaryJobsSpec(store: seq<Job>, now: DateTime)
    ensures var r, candidates := HighSalaryJobs(store, now), Select(store, HighSalaryQuery(now));
      && |r| == Min(HighSalaryLimit, |candidates|)
      && (forall j :: j in r ==> j in store && IsLive(j, now) && j.salary in HighSalaryLabels)
      && SalaryDescending(r)
      && multiset(r) <= multiset(candidates)
      && (forall j, k :: j in multiset(candidates) - multiset(r) && k in r ==> LexLe(j.salary, k.salary))
  {
    var candidates := Select(store, HighSalaryQuery(now));
    RowsWithoutJoin(store, HighSalaryQuery(now));
    var sorted := SortBySalaryDesc(candidates);
    SortBySalaryDescCorrect(candidates);
    TopOfSorted(sorted, HighSalaryLimit);
    var r := HighSalaryJobs(store, now);
    forall j | j in r ensures j in candidates {
      assert j in multiset(r);
    }
  }

  /** The first `n` of a descending sequence dominate the rest. */
  lemma TopOfSorted(s: seq<Job>, n: nat)
    requires SalaryDescending(s)
    ensures var r := Take(s, n);
      && SalaryDescending(r)
      && multiset(r) <= multiset(s)
      && (forall x, y :: x in multiset(s) - multiset(r) && y in r ==> LexLe(x.salary, y.salary))
  {
    var r := Take(s, n);
    var rest := s[|r|..];
    assert s == r + rest;
    assert multiset(s) - multiset(r) == multiset(rest);
    forall x, y | x in multiset(s) - multiset(r) && y in r ensures LexLe(x.salary, y.salary) {
      assert x in rest;
      PrefixDominatesSuffix(s, |r|, x, y);
    }
  }

  /** In a descending sequence every element after position `m` is no greater than every element before it. */
  lemma PrefixDominatesSuffix(s: seq<Job>, m: nat, x: Job, y: Job)
    requires SalaryDescending(s) && m <= |s|
    requires x in s[m..] && y in s[..m]
    ensures LexLe(x.salary, y.salary)
  {
    var a :| 0 <= a < |s[m..]| && s[m..][a] == x;
    var b :| 0 <= b < |s[..m]| && s[..m][b] == y;
    assert s[m + a] == x && s[b] == y;
  }

  /** For these four labels the lexicographic order chosen by `order_by('-salary')` coincides with the order of pay. */
  lemma HighSalaryLabelsSortByPay()
    ensures LexLt(HighSalaryLabels[0], HighSalaryLabels[1])
    ensures LexLt(HighSalaryLabels[1], HighSalaryLabels[2])
    ensures LexLt(HighSalaryLabels[2], HighSalaryLabels[3])
  {
  }
}
