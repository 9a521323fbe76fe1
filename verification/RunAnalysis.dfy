/** The report over all attempts of a run: charged work, the required gate, and what later attempts cannot change. */
module RunAnalysis {
  import opened Common
  import opened AttemptMetrics

  /** A job seen in an earlier attempt, or one the latest attempt cannot be shown to have started, is not charged. */
  function Mark(job: Job, seen: set<int>, latest: bool, latestStarted: Option<int>): Job {
    var j := if job.id in seen then job.(inherited := true, queued := None, execution := None) else job;
    if latest && (latestStarted.None? || j.created.None? || j.created.value < latestStarted.value)
    then j.(unverified := true, queued := None, execution := None)
    else j
  }

  function MarkAll(jobs: seq<Job>, seen: set<int>, latest: bool, latestStarted: Option<int>): seq<Job> {
    seq(|jobs|, i requires 0 <= i < |jobs| => Mark(jobs[i], seen, latest, latestStarted))
  }

  method MarkJobs(jobs: seq<Job>, seen: set<int>, latest: bool, latestStarted: Option<int>) returns (marked: seq<Job>)
    ensures marked == MarkAll(jobs, seen, latest, latestStarted)
  {
    marked := jobs;
    for i := 0 to |jobs|
      invariant |marked| == |jobs|
      invariant forall k :: 0 <= k < i ==> marked[k] == Mark(jobs[k], seen, latest, latestStarted)
      invariant forall k :: i <= k < |jobs| ==> marked[k] == jobs[k]
    {
      if marked[i].id in seen {
        marked := marked[i := marked[i].(inherited := true, queued := None, execution := None)];
      }
      if latest && (latestStarted.None? || marked[i].created.None? || marked[i].created.value < latestStarted.value) {
        marked := marked[i := marked[i].(unverified := true, queued := None, execution := None)];
      }
    }
  }

  // ----- One attempt -----

  predicate Timed(job: Job) {
    job.quality == Ordered && job.execution.Some?
  }

  function TimedJobs(jobs: seq<Job>): seq<Job> {
    if jobs == [] then [] else (if Timed(jobs[0]) then [jobs[0]] else []) + TimedJobs(jobs[1..])
  }

  function QueuedTotal(jobs: seq<Job>): int {
    if jobs == [] then 0 else Or(jobs[0].queued, 0) + QueuedTotal(jobs[1..])
  }

  function RunnerTotal(jobs: seq<Job>): int {
    if jobs == [] then 0 else Or(jobs[0].execution, 0) + RunnerTotal(jobs[1..])
  }

  function Earliest(jobs: seq<Job>): int
    requires jobs != []
  {
    var first := Or(jobs[0].created, 0);
    if |jobs| == 1 then first
    else
      var later := Earliest(jobs[1..]);
      if first < later then first else later
  }

  function Latest(jobs: seq<Job>): int
    requires jobs != []
  {
    var first := Or(jobs[0].completed, 0);
    if |jobs| == 1 then first
    else
      var later := Latest(jobs[1..]);
      if first > later then first else later
  }

  function RequiredJobs(jobs: seq<Job>): seq<Job> {
    if jobs == [] then [] else (if jobs[0].name == REQUIRED then [jobs[0]] else []) + RequiredJobs(jobs[1..])
  }

  /** The one required job that can attest this attempt. */
  function Gate(jobs: seq<Job>): Option<Job> {
    var gates := RequiredJobs(jobs);
    if |gates| == 1 && gates[0].quality == Ordered && !gates[0].inherited && !gates[0].unverified then Some(gates[0])
    else None
  }

  datatype Counts = Counts(
    jobs: nat, timed: nat, unverified: nat, anomalies: nat, skipped: nat, unassigned: nat, steps: nat)

  function Count(jobs: seq<Job>): Counts {
    if jobs == [] then Counts(0, 0, 0, 0, 0, 0, 0)
    else
      var j, rest := jobs[0], Count(jobs[1..]);
      Counts(1 + rest.jobs,
             rest.timed + if Timed(j) then 1 else 0,
             rest.unverified + if j.unverified then 1 else 0,
             rest.anomalies + if j.quality != Ordered then 1 else 0,
             rest.skipped + if j.conclusion == Given("skipped") then 1 else 0,
             rest.unassigned + if j.conclusion == Given("cancelled") && !j.runnerObserved then 1 else 0,
             rest.steps + j.stepAnomalies)
  }

  datatype Attempt = Attempt(
    number: int, jobs: seq<Job>, counts: Counts, wall: Option<int>, queued: int, runner: int,
    result: Field<string>, success: Option<bool>, requiredCompleted: Option<int>)

  function Summarise(number: int, jobs: seq<Job>): Attempt {
    var timed := TimedJobs(jobs);
    var gate := Gate(jobs);
    Attempt(number, jobs, Count(jobs),
            if timed == [] then None else Some(Latest(timed) - Earliest(timed)),
            QueuedTotal(timed), RunnerTotal(timed),
            if gate.None? then Missing else gate.value.conclusion,
            if gate.None? then None
            else Some(gate.value.conclusion == Given("success") && gate.value.status == Some("completed")),
            if gate.None? then None else gate.value.completed)
  }

  // ----- The run -----

  datatype Report = Report(attempts: seq<Attempt>, firstSuccess: Option<bool>, latestMs: Option<int>)

  predicate ExactCommit(sha: Option<string>) {
    && sha.Some? && 40 <= |sha.value| <= 64
    && forall i :: 0 <= i < |sha.value| ==> '0' <= sha.value[i] <= '9' || 'a' <= sha.value[i] <= 'f'
  }

  function Numbers(n: nat): (r: set<int>)
    ensures forall k :: k in r <==> 1 <= k <= n
  {
    if n == 0 then {} else Numbers(n - 1) + {n}
  }

  predicate HeaderAccepted(run: RunRecord, pages: map<int, seq<Page>>) {
    && run.id.Some? && run.id.value > 0 && run.runAttempt.Some? && run.runAttempt.value > 0 && ExactCommit(run.headSha)
    && run.created.At? && !run.updated.Malformed? && !run.started.Malformed?
    && (run.updated.At? ==> run.created.ms <= run.updated.ms)
    && pages.Keys == Numbers(run.runAttempt.value)
  }

  function JobIds(jobs: seq<Job>): set<int> {
    set j | j in jobs :: j.id
  }

  /** All attempts up to `n` have pages. */
  ghost predicate HasPages(pages: map<int, seq<Page>>, n: int) {
    forall k :: 1 <= k <= n ==> k in pages
  }

  /** The ids listed by the attempts before `n`. */
  function SeenBefore(pages: map<int, seq<Page>>, n: nat): set<int>
    requires HasPages(pages, n - 1)
  {
    if n <= 1 then {} else SeenBefore(pages, n - 1) + JobIds(MeasureAll(Records(pages[n - 1])))
  }

  /** A required job with ordered clocks lies inside the run's own clocks. */
  predicate WithinRun(run: RunRecord, job: Job) {
    run.created.At? && job.name == REQUIRED && job.quality == Ordered ==>
      && Or(job.created, 0) >= run.created.ms
      && (run.updated.At? ==> Or(job.completed, 0) <= run.updated.ms)
  }

  /** The jobs of attempt `n`, with what it may not be charged for marked. */
  function JobsOf(run: RunRecord, pages: map<int, seq<Page>>, n: nat): seq<Job>
    requires 1 <= n && HasPages(pages, n)
  {
    var latest := Or(run.runAttempt, 0) > 1 && n == Or(run.runAttempt, 0);
    MarkAll(MeasureAll(Records(pages[n])), SeenBefore(pages, n), latest, Time(run.started))
  }

  function AttemptOf(run: RunRecord, pages: map<int, seq<Page>>, n: nat): Attempt
    requires 1 <= n && HasPages(pages, n)
  {
    Summarise(n, JobsOf(run, pages, n))
  }

  function Attempts(run: RunRecord, pages: map<int, seq<Page>>, n: nat): seq<Attempt>
    requires HasPages(pages, n)
  {
    seq(n, i requires 0 <= i < n => AttemptOf(run, pages, i + 1))
  }

  ghost predicate AttemptAccepted(run: RunRecord, pages: map<int, seq<Page>>, n: nat)
    requires 1 <= n && HasPages(pages, n)
  {
    && PagesAccepted(pages[n], n, Or(run.id, 0), Or(run.headSha, ""))
    && forall job :: job in JobsOf(run, pages, n) ==> WithinRun(run, job)
  }

  ghost predicate RunAccepted(run: RunRecord, pages: map<int, seq<Page>>) {
    HeaderAccepted(run, pages) && forall n :: 1 <= n <= run.runAttempt.value ==> AttemptAccepted(run, pages, n)
  }

  /** Time to the required gate of the latest attempt, reported only for a run that ended in success. */
  function LatestMs(run: RunRecord, latest: Attempt): Option<int> {
    if latest.success == Some(true) && run.status == Some("completed") && run.conclusion == Some("success")
       && run.created.At? && latest.requiredCompleted.Some? && latest.requiredCompleted.value >= run.created.ms
    then Some(latest.requiredCompleted.value - run.created.ms)
    else None
  }

  function ReportOf(run: RunRecord, attempts: seq<Attempt>): Report
    requires attempts != []
  {
    Report(attempts, attempts[0].success, LatestMs(run, attempts[|attempts| - 1]))
  }

  ghost predicate AcceptedThrough(run: RunRecord, pages: map<int, seq<Page>>, n: nat)
    requires HasPages(pages, n)
  {
    n == 0 || (AcceptedThrough(run, pages, n - 1) && AttemptAccepted(run, pages, n))
  }

  lemma {:induction false} AcceptedThroughAll(run: RunRecord, pages: map<int, seq<Page>>, n: nat)
    requires HasPages(pages, n)
    ensures AcceptedThrough(run, pages, n) <==> forall k :: 1 <= k <= n ==> AttemptAccepted(run, pages, k)
  {
    if n > 0 { AcceptedThroughAll(run, pages, n - 1); }
  }

  method AnalyseRun(run: RunRecord, pages: map<int, seq<Page>>) returns (r: Option<Report>)
    ensures r.Some? <==> RunAccepted(run, pages)
    ensures r.Some? ==> r.value == ReportOf(run, Attempts(run, pages, run.runAttempt.value))
  {
    if !HeaderAccepted(run, pages) { return None; }
    var ok, attempts := AnalyseAttempts(run, pages, run.runAttempt.value);
    AcceptedThroughAll(run, pages, run.runAttempt.value);
    return if ok then Some(ReportOf(run, attempts)) else None;
  }

  /** The first attempts of the report. */
  ghost predicate Reported(run: RunRecord, pages: map<int, seq<Page>>, attempts: seq<Attempt>)
    requires HasPages(pages, |attempts|)
  {
    forall i :: 0 <= i < |attempts| ==> attempts[i] == AttemptOf(run, pages, i + 1)
  }

  /** The attempt loop, carrying the report so far and every job id seen. */
  method AnalyseAttempts(run: RunRecord, pages: map<int, seq<Page>>, maximum: nat)
    returns (ok: bool, attempts: seq<Attempt>)
    requires HasPages(pages, maximum) && run.runAttempt == Some(maximum)
    ensures ok <==> AcceptedThrough(run, pages, maximum)
    ensures ok ==> attempts == Attempts(run, pages, maximum)
  {
    attempts, ok := [], true;
    var seenBefore: set<int> := {};
    while |attempts| < maximum
      invariant |attempts| <= maximum && seenBefore == SeenBefore(pages, |attempts| + 1)
      invariant Reported(run, pages, attempts)
      invariant AcceptedThrough(run, pages, |attempts|)
    {
      ghost var number := |attempts| + 1;
      ok, attempts, seenBefore := NextAttempt(run, pages, maximum, attempts, seenBefore);
      if !ok {
        NotAcceptedThrough(run, pages, number, maximum);
        return;
      }
    }
    ReportedAll(run, pages, attempts);
  }

  lemma ReportedAll(run: RunRecord, pages: map<int, seq<Page>>, attempts: seq<Attempt>)
    requires HasPages(pages, |attempts|) && Reported(run, pages, attempts)
    ensures attempts == Attempts(run, pages, |attempts|)
  {
  }

  lemma NotAcceptedThrough(run: RunRecord, pages: map<int, seq<Page>>, m: nat, n: nat)
    requires HasPages(pages, n) && 1 <= m <= n && !AttemptAccepted(run, pages, m)
    ensures !AcceptedThrough(run, pages, n)
  {
    AcceptedThroughAll(run, pages, n);
  }

  /** One turn of the attempt loop. */
  method NextAttempt(run: RunRecord, pages: map<int, seq<Page>>, maximum: nat,
                     attempts: seq<Attempt>, seenBefore: set<int>)
    returns (ok: bool, attempts': seq<Attempt>, seen: set<int>)
    requires |attempts| < maximum && HasPages(pages, maximum) && run.runAttempt == Some(maximum)
    requires Reported(run, pages, attempts) && seenBefore == SeenBefore(pages, |attempts| + 1)
    ensures ok <==> AttemptAccepted(run, pages, |attempts| + 1)
    ensures ok ==> |attempts'| == |attempts| + 1 && Reported(run, pages, attempts')
    ensures ok ==> seen == SeenBefore(pages, |attempts| + 2)
  {
    var number := |attempts| + 1;
    var jobs;
    ok, jobs, seen := MeasureAttempt(run, pages, maximum, number, seenBefore);
    attempts' := attempts + [Summarise(number, jobs)];
    if ok { ReportedMore(run, pages, attempts, attempts'[|attempts|]); }
  }

  lemma ReportedMore(run: RunRecord, pages: map<int, seq<Page>>, attempts: seq<Attempt>, a: Attempt)
    requires HasPages(pages, |attempts| + 1) && Reported(run, pages, attempts)
    requires a == AttemptOf(run, pages, |attempts| + 1)
    ensures Reported(run, pages, attempts + [a])
  {
  }

  method MeasureAttempt(run: RunRecord, pages: map<int, seq<Page>>, maximum: nat, number: nat, seenBefore: set<int>)
    returns (ok: bool, marked: seq<Job>, seen: set<int>)
    requires 1 <= number <= maximum && HasPages(pages, maximum) && run.runAttempt == Some(maximum)
    requires seenBefore == SeenBefore(pages, number)
    ensures ok <==> AttemptAccepted(run, pages, number)
    ensures ok ==> marked == JobsOf(run, pages, number) && seen == SeenBefore(pages, number + 1)
  {
    var jobs := CompleteJobs(pages[number], number, Or(run.id, 0), Or(run.headSha, ""));
    if jobs.None? { return false, [], {}; }
    marked := MarkJobs(jobs.value, seenBefore, maximum > 1 && number == maximum, Time(run.started));
    ok, seen := RecordSeen(run, marked, seenBefore);
    MarkKeepsIds(jobs.value, seenBefore, maximum > 1 && number == maximum, Time(run.started));
  }

  lemma MarkKeepsIds(jobs: seq<Job>, seen: set<int>, latest: bool, latestStarted: Option<int>)
    ensures JobIds(MarkAll(jobs, seen, latest, latestStarted)) == JobIds(jobs)
  {
    var marked := MarkAll(jobs, seen, latest, latestStarted);
    forall i | 0 <= i < |jobs| ensures jobs[i].id in JobIds(marked) && marked[i].id in JobIds(jobs) {
      assert marked[i] in marked && jobs[i] in jobs && marked[i].id == jobs[i].id;
    }
  }

  /** Remembers an attempt's job ids and checks its required jobs against the run's clocks. */
  method RecordSeen(run: RunRecord, jobs: seq<Job>, seen: set<int>) returns (ok: bool, seen': set<int>)
    ensures ok <==> forall job :: job in jobs ==> WithinRun(run, job)
    ensures ok ==> seen' == seen + JobIds(jobs)
  {
    seen' := seen;
    for i := 0 to |jobs|
      invariant seen' == seen + JobIds(jobs[..i])
      invariant forall job :: job in jobs[..i] ==> WithinRun(run, job)
    {
      assert jobs[..i + 1] == jobs[..i] + [jobs[i]];
      seen' := seen' + {jobs[i].id};
      if !WithinRun(run, jobs[i]) { return false, seen'; }
    }
    assert jobs[..|jobs|] == jobs;
    ok := true;
  }

  // ----- No work is charged twice -----

  /** Some earlier attempt lists the id. */
  ghost predicate ListedBefore(pages: map<int, seq<Page>>, n: nat, id: int)
    requires HasPages(pages, n - 1)
  {
    exists b: nat, j: nat :: ListedAt(pages, n, b, j, id)
  }

  ghost predicate ListedAt(pages: map<int, seq<Page>>, n: nat, b: nat, j: nat, id: int)
    requires HasPages(pages, n - 1)
  {
    1 <= b < n && j < |Records(pages[b])| && Or(Records(pages[b])[j].id, 0) == id
  }

  lemma IdsOfRecords(records: seq<JobRecord>, id: int)
    ensures id in JobIds(MeasureAll(records)) <==> exists j :: 0 <= j < |records| && Or(records[j].id, 0) == id
  {
    var jobs := MeasureAll(records);
    if id in JobIds(jobs) {
      var job :| job in jobs && job.id == id;
      var j :| 0 <= j < |jobs| && jobs[j] == job;
      assert Or(records[j].id, 0) == id;
    }
    forall j | 0 <= j < |records| ensures Or(records[j].id, 0) in JobIds(jobs) { assert jobs[j] in jobs; }
  }

  /** The ids carried along are exactly those of earlier attempts. */
  lemma {:induction false} SeenExactly(pages: map<int, seq<Page>>, n: nat, id: int)
    requires HasPages(pages, n - 1)
    ensures id in SeenBefore(pages, n) <==> ListedBefore(pages, n, id)
  {
    if n > 1 {
      SeenExactly(pages, n - 1, id);
      IdsOfRecords(Records(pages[n - 1]), id);
      if id in JobIds(MeasureAll(Records(pages[n - 1]))) {
        var j :| 0 <= j < |Records(pages[n - 1])| && Or(Records(pages[n - 1])[j].id, 0) == id;
        assert ListedAt(pages, n, n - 1, j, id);
      }
      if ListedBefore(pages, n - 1, id) {
        var b: nat, j: nat :| ListedAt(pages, n - 1, b, j, id);
        assert ListedAt(pages, n, b, j, id);
      }
      if ListedBefore(pages, n, id) {
        var b: nat, j: nat :| ListedAt(pages, n, b, j, id);
        assert b < n - 1 ==> ListedAt(pages, n - 1, b, j, id);
      }
    }
  }

  /** A charged job was listed in no earlier attempt. */
  lemma ChargedInFirstListing(run: RunRecord, pages: map<int, seq<Page>>, a: nat, i: nat, b: nat, j: nat)
    requires HasPages(pages, a) && 1 <= b < a
    requires i < |JobsOf(run, pages, a)| && Timed(JobsOf(run, pages, a)[i]) && j < |JobsOf(run, pages, b)|
    ensures JobsOf(run, pages, b)[j].id != JobsOf(run, pages, a)[i].id
  {
    SeenExactly(pages, a, JobsOf(run, pages, a)[i].id);
    assert JobsOf(run, pages, b)[j].id == JobsOf(run, pages, a)[i].id
      ==> ListedAt(pages, a, b, j, JobsOf(run, pages, a)[i].id);
  }

  lemma ListedOnce(run: RunRecord, pages: map<int, seq<Page>>, n: nat, i: nat, j: nat)
    requires 1 <= n && HasPages(pages, n) && RecordsAccepted(Records(pages[n]), n, Or(run.id, 0), Or(run.headSha, ""))
    requires i < |JobsOf(run, pages, n)| && j < |JobsOf(run, pages, n)|
    requires JobsOf(run, pages, n)[i].id == JobsOf(run, pages, n)[j].id
    ensures i == j
  {
    var records := Records(pages[n]);
    assert records[i].id.Some? && records[j].id.Some?;
  }

  /** Over all attempts of an accepted run each job id is charged at most once, where it is first listed. */
  lemma ChargedOnce(run: RunRecord, pages: map<int, seq<Page>>, a: nat, i: nat, b: nat, j: nat)
    requires RunAccepted(run, pages) && 1 <= a <= run.runAttempt.value && 1 <= b <= run.runAttempt.value
    requires i < |JobsOf(run, pages, a)| && Timed(JobsOf(run, pages, a)[i])
    requires j < |JobsOf(run, pages, b)| && JobsOf(run, pages, a)[i].id == JobsOf(run, pages, b)[j].id
    ensures a <= b
    ensures a == b ==> i == j
    ensures Timed(JobsOf(run, pages, b)[j]) ==> a == b
  {
    if b < a {
      ChargedInFirstListing(run, pages, a, i, b, j);
    } else if a < b {
      if Timed(JobsOf(run, pages, b)[j]) {
        ChargedInFirstListing(run, pages, b, j, a, i);
      }
    } else {
      assert AttemptAccepted(run, pages, a);
      ListedOnce(run, pages, a, i, j);
    }
  }

  // ----- The required job -----

  /** No other job has the required name. */
  ghost predicate OnlyRequired(jobs: seq<Job>, i: nat) {
    forall k :: 0 <= k < |jobs| && k != i ==> jobs[k].name != REQUIRED
  }

  lemma {:induction false} NoneRequired(jobs: seq<Job>)
    ensures RequiredJobs(jobs) == [] <==> forall k :: 0 <= k < |jobs| ==> jobs[k].name != REQUIRED
  {
    if jobs != [] { NoneRequired(jobs[1..]); }
  }

  /** If no other job has the required name, the list of required jobs holds just that one. */
  lemma {:induction false} AloneIsListed(jobs: seq<Job>, i: nat)
    requires i < |jobs| && jobs[i].name == REQUIRED && OnlyRequired(jobs, i)
    ensures RequiredJobs(jobs) == [jobs[i]]
  {
    var tail := jobs[1..];
    assert forall k :: 0 <= k < |tail| ==> tail[k] == jobs[k + 1];
    if i == 0 { NoneRequired(tail); } else { AloneIsListed(tail, i - 1); }
  }

  lemma {:induction false} ListedIsAlone(jobs: seq<Job>) returns (i: nat)
    requires |RequiredJobs(jobs)| == 1
    ensures i < |jobs| && RequiredJobs(jobs) == [jobs[i]] && jobs[i].name == REQUIRED && OnlyRequired(jobs, i)
  {
    var tail := jobs[1..];
    assert forall k :: 0 < k < |jobs| ==> jobs[k] == tail[k - 1];
    if jobs[0].name == REQUIRED {
      NoneRequired(tail);
      i := 0;
    } else {
      i := ListedIsAlone(tail);
      i := i + 1;
    }
  }

  // ----- Work fits the wall clock -----

  /** The durations of a charged job are differences of its ordered clocks. */
  ghost predicate Consistent(job: Job) {
    Timed(job) ==>
      && job.created.Some? && job.started.Some? && job.completed.Some?
      && job.created.value <= job.started.value <= job.completed.value
      && job.queued == Some(job.started.value - job.created.value)
      && job.execution == Some(job.completed.value - job.started.value)
  }

  lemma {:induction false} TimedWithinWall(jobs: seq<Job>, from: int, to: int)
    requires forall j :: j in jobs ==> Consistent(j) && Timed(j) && from <= j.created.value && j.completed.value <= to
    ensures QueuedTotal(jobs) >= 0 && RunnerTotal(jobs) >= 0
    ensures QueuedTotal(jobs) + RunnerTotal(jobs) <= |jobs| * (to - from)
  {
    if jobs != [] {
      assert jobs[0] in jobs;
      TimedWithinWall(jobs[1..], from, to);
      assert |jobs| * (to - from) == (to - from) + (|jobs| - 1) * (to - from);
    }
  }

  lemma {:induction false} WallSpans(jobs: seq<Job>)
    requires jobs != []
    ensures forall j :: j in jobs ==> Earliest(jobs) <= Or(j.created, 0) && Or(j.completed, 0) <= Latest(jobs)
  {
    if |jobs| > 1 { WallSpans(jobs[1..]); }
  }

  /** Every timed job is counted once, and none of them as badly timed. */
  lemma {:induction false} CountsAdd(jobs: seq<Job>)
    ensures Count(jobs).jobs == |jobs| && Count(jobs).timed == |TimedJobs(jobs)|
    ensures Count(jobs).timed + Count(jobs).anomalies <= |jobs|
  {
    if jobs != [] { CountsAdd(jobs[1..]); }
  }

  lemma {:induction false} TimedJobsAreTimed(jobs: seq<Job>)
    ensures forall j :: j in TimedJobs(jobs) <==> j in jobs && Timed(j)
  {
    if jobs != [] { TimedJobsAreTimed(jobs[1..]); }
  }

  /** In every attempt, queued plus running time is at most the number of charged jobs times the observed wall. */
  lemma WorkWithinWall(run: RunRecord, pages: map<int, seq<Page>>, a: nat)
    requires RunAccepted(run, pages) && a < run.runAttempt.value
    ensures var attempt := Attempts(run, pages, run.runAttempt.value)[a];
      && attempt.queued >= 0 && attempt.runner >= 0
      && (attempt.wall.None? <==> attempt.counts.timed == 0)
      && attempt.queued + attempt.runner <= attempt.counts.timed * Or(attempt.wall, 0)
  {
    JobsConsistent(run, pages, a + 1);
    SummaryWithinWall(a + 1, JobsOf(run, pages, a + 1));
  }

  lemma JobsConsistent(run: RunRecord, pages: map<int, seq<Page>>, n: nat)
    requires 1 <= n && HasPages(pages, n)
    ensures forall j :: j in JobsOf(run, pages, n) ==> Consistent(j)
  {
  }

  lemma SummaryWithinWall(n: int, jobs: seq<Job>)
    requires forall j :: j in jobs ==> Consistent(j)
    ensures var attempt := Summarise(n, jobs);
      && attempt.queued >= 0 && attempt.runner >= 0
      && (attempt.wall.None? <==> attempt.counts.timed == 0)
      && attempt.queued + attempt.runner <= attempt.counts.timed * Or(attempt.wall, 0)
  {
    TimedJobsAreTimed(jobs);
    CountsAdd(jobs);
    if TimedJobs(jobs) != [] { WorkFits(TimedJobs(jobs)); }
  }

  /** Timed jobs fit between the earliest creation and the latest completion. */
  lemma WorkFits(timed: seq<Job>)
    requires timed != [] && forall j :: j in timed ==> Consistent(j) && Timed(j)
    ensures QueuedTotal(timed) >= 0 && RunnerTotal(timed) >= 0
    ensures QueuedTotal(timed) + RunnerTotal(timed) <= |timed| * (Latest(timed) - Earliest(timed))
  {
    WallSpans(timed);
    TimedWithinWall(timed, Earliest(timed), Latest(timed));
  }

  // ----- The first attempt stands -----

  /** Runs that agree on id, commit and the first attempt's pages report the same first attempt. */
  lemma FirstAttemptStands(run: RunRecord, pages: map<int, seq<Page>>, run': RunRecord, pages': map<int, seq<Page>>)
    requires RunAccepted(run, pages) && RunAccepted(run', pages')
    requires run.id == run'.id && run.headSha == run'.headSha && pages[1] == pages'[1]
    ensures var attempts, attempts' :=
        Attempts(run, pages, run.runAttempt.value), Attempts(run', pages', run'.runAttempt.value);
      && attempts[0] == attempts'[0]
      && ReportOf(run, attempts).firstSuccess == ReportOf(run', attempts').firstSuccess
  {
    FirstAttempt(run, pages);
    FirstAttempt(run', pages');
  }

  /** The first attempt depends on its own pages only: it inherits nothing and is never the rerun in question. */
  lemma FirstAttempt(run: RunRecord, pages: map<int, seq<Page>>)
    requires RunAccepted(run, pages)
    ensures Attempts(run, pages, run.runAttempt.value)[0]
         == Summarise(1, MarkAll(MeasureAll(Records(pages[1])), {}, false, None))
  {
    var jobs := MeasureAll(Records(pages[1]));
    assert MarkAll(jobs, {}, false, Time(run.started)) == MarkAll(jobs, {}, false, None);
  }

  lemma {:induction false} RequiredIsListed(jobs: seq<Job>)
    ensures forall j :: j in RequiredJobs(jobs) ==> j in jobs && j.name == REQUIRED
  {
    if jobs != [] { RequiredIsListed(jobs[1..]); }
  }

  /** A reported latest time lies between zero and the run's own duration. */
  lemma LatestTimeWithinRun(run: RunRecord, pages: map<int, seq<Page>>)
    requires RunAccepted(run, pages)
    ensures var latest := ReportOf(run, Attempts(run, pages, run.runAttempt.value)).latestMs;
      latest.Some? ==> 0 <= latest.value && (run.updated.At? ==> latest.value <= run.updated.ms - run.created.ms)
  {
    var n := run.runAttempt.value;
    var jobs := JobsOf(run, pages, n);
    assert AttemptAccepted(run, pages, n);
    RequiredIsListed(jobs);
    var gate := Gate(jobs);
    if gate.Some? {
      assert gate.value in RequiredJobs(jobs);
      assert WithinRun(run, gate.value);
      GateCompletes(run, pages, n, gate.value);
    }
  }

  lemma GateCompletes(run: RunRecord, pages: map<int, seq<Page>>, n: nat, job: Job)
    requires 1 <= n && HasPages(pages, n) && job in JobsOf(run, pages, n) && job.quality == Ordered
    ensures job.completed.Some?
  {
  }
}
