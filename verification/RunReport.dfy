/** What the report of a run says, read from the job records alone. */
module RunReport {
  import opened Common
  import opened AttemptMetrics
  import opened RunAnalysis

  // ----- One record -----

  /** The attempt is the latest of several, and the job was not created since that rerun started. */
  ghost predicate Unattributed(run: RunRecord, n: nat, r: JobRecord) {
    && run.runAttempt.Some? && run.runAttempt.value > 1 && n == run.runAttempt.value
    && !(run.started.At? && r.created.At? && run.started.ms <= r.created.ms)
  }

  ghost predicate ClocksOrdered(r: JobRecord) {
    r.created.At? && r.started.At? && r.completed.At? && r.created.ms <= r.started.ms <= r.completed.ms
  }

  /** Step `k` set up the job, inside the job's interval. */
  ghost predicate SetsUp(r: JobRecord, k: int) {
    && r.steps.Given? && 0 <= k < |r.steps.value| && r.started.At? && r.completed.At?
    && var step := r.steps.value[k];
    && step.name == Some("Set up job") && step.started.At? && step.completed.At?
    && r.started.ms <= step.started.ms && step.started.ms <= step.completed.ms && step.completed.ms <= r.completed.ms
  }

  /** The runner has a name that is not blank or a positive number, or a set-up step shows it. */
  ghost predicate RunnerSeen(r: JobRecord) {
    || (r.runnerName.Some? && !forall k :: 0 <= k < |r.runnerName.value| ==> IsPythonSpace(r.runnerName.value[k]))
    || (r.runnerId.Some? && r.runnerId.value >= 1)
    || exists k :: SetsUp(r, k)
  }

  /** The attempt is charged with the job: it ran to an end, here for the first time. */
  ghost predicate Charged(run: RunRecord, pages: map<int, seq<Page>>, n: nat, r: JobRecord)
    requires HasPages(pages, n - 1)
  {
    && ClocksOrdered(r) && r.status == Some("completed") && r.conclusion != Missing && r.conclusion != Given("skipped")
    && RunnerSeen(r) && !ListedBefore(pages, n, Or(r.id, 0)) && !Unattributed(run, n, r)
  }

  /** The reported job repeats the record, and has durations exactly when the attempt is charged with it. */
  ghost predicate JobStands(run: RunRecord, pages: map<int, seq<Page>>, n: nat, r: JobRecord, job: Job)
    requires HasPages(pages, n - 1)
  {
    && r.id == Some(job.id) && r.name == Some(job.name) && job.status == r.status && job.conclusion == r.conclusion
    && job.created == Time(r.created) && job.started == Time(r.started) && job.completed == Time(r.completed)
    && (job.quality == Ordered <==> ClocksOrdered(r))
    && (job.quality == MissingTimestamp <==> !(r.created.At? && r.started.At? && r.completed.At?))
    && (job.inherited <==> ListedBefore(pages, n, job.id)) && (job.unverified <==> Unattributed(run, n, r))
    && (job.runnerObserved <==> RunnerSeen(r))
    && job.queued == (if Charged(run, pages, n, r) then Some(r.started.ms - r.created.ms) else None)
    && job.execution == (if Charged(run, pages, n, r) then Some(r.completed.ms - r.started.ms) else None)
  }

  ghost predicate JobsStand(run: RunRecord, pages: map<int, seq<Page>>, n: nat, jobs: seq<Job>)
    requires 1 <= n && HasPages(pages, n)
  {
    && |jobs| == |Records(pages[n])|
    && forall i :: 0 <= i < |jobs| ==> JobStands(run, pages, n, Records(pages[n])[i], jobs[i])
  }

  lemma RunnerSeenExactly(r: JobRecord)
    ensures RunnerSeen(r) <==> RunnerObserved(r)
  {
    forall k | SetsUp(r, k) ensures RunnerObserved(r) { assert r.steps.value[k] in r.steps.value; }
    if r.steps.Given? && exists s :: s in r.steps.value && SetUp(s, Time(r.started), Time(r.completed)) {
      var s :| s in r.steps.value && SetUp(s, Time(r.started), Time(r.completed));
      var k :| 0 <= k < |r.steps.value| && r.steps.value[k] == s;
      assert SetsUp(r, k);
    }
  }

  /** A job is charged to an attempt exactly when its record and the earlier listings warrant it. */
  lemma ChargedExactly(run: RunRecord, pages: map<int, seq<Page>>, n: nat, i: nat)
    requires 1 <= n && HasPages(pages, n) && i < |Records(pages[n])|
    ensures Timed(JobsOf(run, pages, n)[i]) <==> Charged(run, pages, n, Records(pages[n])[i])
  {
    SeenExactly(pages, n, Or(Records(pages[n])[i].id, 0));
    RunnerSeenExactly(Records(pages[n])[i]);
  }

  lemma JobIsExact(run: RunRecord, pages: map<int, seq<Page>>, n: nat, r: JobRecord)
    requires HasPages(pages, n - 1) && r.id.Some? && r.name.Some?
    ensures var latest := Or(run.runAttempt, 0) > 1 && n == Or(run.runAttempt, 0);
      JobStands(run, pages, n, r, Mark(Measure(r), SeenBefore(pages, n), latest, Time(run.started)))
  {
    SeenExactly(pages, n, r.id.value);
    RunnerSeenExactly(r);
    ChargeRests(run, pages, n, r);
  }

  lemma ChargeRests(run: RunRecord, pages: map<int, seq<Page>>, n: nat, r: JobRecord)
    requires HasPages(pages, n - 1)
    ensures Charged(run, pages, n, r) <==>
      Executed(r) && !ListedBefore(pages, n, Or(r.id, 0)) && !Unattributed(run, n, r)
    ensures Executed(r) ==> ClocksOrdered(r)
  {
    RunnerSeenExactly(r);
  }

  lemma JobsAreExact(run: RunRecord, pages: map<int, seq<Page>>, n: nat)
    requires 1 <= n && HasPages(pages, n) && AttemptAccepted(run, pages, n)
    ensures JobsStand(run, pages, n, JobsOf(run, pages, n))
  {
    var records := Records(pages[n]);
    forall i | 0 <= i < |records| ensures JobStands(run, pages, n, records[i], JobsOf(run, pages, n)[i]) {
      assert Measurable(records[i], n, Or(run.id, 0), Or(run.headSha, ""));
      JobIsExact(run, pages, n, records[i]);
    }
  }

  // ----- Acceptance -----

  /** A required job with ordered clocks ran while the run was known to exist. */
  ghost predicate ClockedInRun(run: RunRecord, r: JobRecord) {
    run.created.At? && r.name == Some(REQUIRED) && ClocksOrdered(r) ==>
      && run.created.ms <= r.created.ms
      && (run.updated.At? ==> r.completed.ms <= run.updated.ms)
  }

  ghost predicate AllClockedInRun(run: RunRecord, records: seq<JobRecord>) {
    forall i :: 0 <= i < |records| ==> ClockedInRun(run, records[i])
  }

  lemma JobInRun(run: RunRecord, r: JobRecord, seen: set<int>, latest: bool)
    requires r.name.Some?
    ensures WithinRun(run, Mark(Measure(r), seen, latest, Time(run.started))) <==> ClockedInRun(run, r)
  {
  }

  lemma JobsInRun(run: RunRecord, records: seq<JobRecord>, seen: set<int>, latest: bool)
    requires forall i :: 0 <= i < |records| ==> records[i].name.Some?
    ensures (forall job :: job in MarkAll(MeasureAll(records), seen, latest, Time(run.started)) ==> WithinRun(run, job))
       <==> AllClockedInRun(run, records)
  {
    var jobs := MarkAll(MeasureAll(records), seen, latest, Time(run.started));
    forall i | 0 <= i < |records|
      ensures jobs[i] in jobs && (WithinRun(run, jobs[i]) <==> ClockedInRun(run, records[i]))
    {
      JobInRun(run, records[i], seen, latest);
    }
  }

  /** An attempt is accepted for its pages and the clocks of its required jobs, whatever other attempts list. */
  lemma AttemptAcceptedExactly(run: RunRecord, pages: map<int, seq<Page>>, n: nat)
    requires 1 <= n && HasPages(pages, n)
    ensures AttemptAccepted(run, pages, n)
       <==> PagesAccepted(pages[n], n, Or(run.id, 0), Or(run.headSha, "")) && AllClockedInRun(run, Records(pages[n]))
  {
    if PagesAccepted(pages[n], n, Or(run.id, 0), Or(run.headSha, "")) {
      JobsInRun(run, Records(pages[n]), SeenBefore(pages, n),
                Or(run.runAttempt, 0) > 1 && n == Or(run.runAttempt, 0));
    }
  }

  /** The record says whose it is, has a name, and reports no clock or step in a form that cannot be read. */
  ghost predicate Belongs(run: RunRecord, n: nat, r: JobRecord) {
    && r.id.Some? && 1 <= r.id.value && r.runId == run.id && r.headSha == run.headSha && r.runAttempt == Some(n)
    && r.name.Some? && 1 <= |r.name.value|
    && Malformed !in {r.created, r.started, r.completed} && r.steps != Mistyped
    && (r.steps.Given? ==> forall s :: s in r.steps.value ==> Malformed !in {s.started, s.completed})
  }

  /** Every page gives the number of all jobs, and each job is listed once. */
  ghost predicate Complete(run: RunRecord, n: nat, pages: seq<Page>) {
    var rs := Records(pages);
    && pages != [] && (forall p :: p in pages ==> p.jobs.Some? && p.totalCount == Some(|rs|))
    && (forall i :: 0 <= i < |rs| ==> Belongs(run, n, rs[i]))
    && forall i, j :: 0 <= i < j < |rs| ==> rs[i].id != rs[j].id
  }

  /** The run has positive numbers, an exact commit, clocks in order, and pages for its attempts and no others. */
  ghost predicate Headed(run: RunRecord, pages: map<int, seq<Page>>) {
    && run.id.Some? && 1 <= run.id.value && run.runAttempt.Some? && 1 <= run.runAttempt.value
    && run.headSha.Some? && 40 <= |run.headSha.value| <= 64
    && (forall c :: c in run.headSha.value ==> '0' <= c <= '9' || 'a' <= c <= 'f')
    && run.created.At? && run.started != Malformed
    && (run.updated == Absent || (run.updated.At? && run.created.ms <= run.updated.ms))
    && forall k :: k in pages <==> 1 <= k <= run.runAttempt.value
  }

  ghost predicate AttemptComplete(run: RunRecord, pages: map<int, seq<Page>>, n: nat)
    requires 1 <= n && HasPages(pages, n)
  {
    Complete(run, n, pages[n]) && AllClockedInRun(run, Records(pages[n]))
  }

  lemma HeadedExactly(run: RunRecord, pages: map<int, seq<Page>>)
    ensures HeaderAccepted(run, pages) <==> Headed(run, pages)
  {
    if HeaderAccepted(run, pages) {
      forall c | c in run.headSha.value ensures '0' <= c <= '9' || 'a' <= c <= 'f' {
        var i :| 0 <= i < |run.headSha.value| && run.headSha.value[i] == c;
      }
    }
    if Headed(run, pages) {
      forall i | 0 <= i < |run.headSha.value|
        ensures '0' <= run.headSha.value[i] <= '9' || 'a' <= run.headSha.value[i] <= 'f'
      {
        assert run.headSha.value[i] in run.headSha.value;
      }
    }
    if run.runAttempt.Some? && run.runAttempt.value > 0 {
      assert (forall k :: k in pages <==> 1 <= k <= run.runAttempt.value)
        <==> pages.Keys == Numbers(run.runAttempt.value);
    }
  }

  lemma BelongsExactly(run: RunRecord, n: nat, r: JobRecord)
    requires run.id.Some? && run.headSha.Some?
    ensures Measurable(r, n, Or(run.id, 0), Or(run.headSha, "")) <==> Belongs(run, n, r)
  {
    if r.steps.Given? && Measurable(r, n, Or(run.id, 0), Or(run.headSha, "")) {
      forall s | s in r.steps.value ensures Malformed !in {s.started, s.completed} {
        var i :| 0 <= i < |r.steps.value| && r.steps.value[i] == s;
      }
    }
    if r.steps.Given? && Belongs(run, n, r) {
      forall i | 0 <= i < |r.steps.value|
        ensures !r.steps.value[i].started.Malformed? && !r.steps.value[i].completed.Malformed?
      {
        assert r.steps.value[i] in r.steps.value;
      }
    }
  }

  lemma CompleteExactly(run: RunRecord, n: nat, pages: seq<Page>)
    requires run.id.Some? && run.headSha.Some?
    ensures PagesAccepted(pages, n, Or(run.id, 0), Or(run.headSha, "")) <==> Complete(run, n, pages)
  {
    var rs := Records(pages);
    forall i | 0 <= i < |rs|
      ensures Measurable(rs[i], n, Or(run.id, 0), Or(run.headSha, "")) <==> Belongs(run, n, rs[i])
    {
      BelongsExactly(run, n, rs[i]);
    }
    if pages != [] {
      PagesCounted(pages);
    }
  }

  lemma PagesCounted(pages: seq<Page>)
    requires pages != []
    ensures (forall i :: 0 <= i < |pages| ==> PageConsistent(pages[i], pages[0]))
            && pages[0].totalCount == Some(|Records(pages)|)
       <==> forall p :: p in pages ==> p.jobs.Some? && p.totalCount == Some(|Records(pages)|)
  {
    if forall p :: p in pages ==> p.jobs.Some? && p.totalCount == Some(|Records(pages)|) {
      forall i | 0 <= i < |pages| ensures PageConsistent(pages[i], pages[0]) {
        assert pages[i] in pages && pages[0] in pages;
      }
      assert pages[0] in pages;
    }
  }

  lemma AttemptCompleteExactly(run: RunRecord, pages: map<int, seq<Page>>, n: nat)
    requires 1 <= n && HasPages(pages, n) && run.id.Some? && run.headSha.Some?
    ensures AttemptAccepted(run, pages, n) <==> AttemptComplete(run, pages, n)
  {
    AttemptAcceptedExactly(run, pages, n);
    CompleteExactly(run, n, pages[n]);
  }

  ghost predicate AllComplete(run: RunRecord, pages: map<int, seq<Page>>)
    requires Headed(run, pages)
  {
    forall n :: 1 <= n <= run.runAttempt.value ==> AttemptComplete(run, pages, n)
  }

  /** A run is analysed exactly when its header, its pages and its records are in order. */
  lemma RunAcceptedExactly(run: RunRecord, pages: map<int, seq<Page>>)
    ensures RunAccepted(run, pages) <==> Headed(run, pages) && AllComplete(run, pages)
  {
    HeadedExactly(run, pages);
    if Headed(run, pages) {
      forall n | 1 <= n <= run.runAttempt.value
        ensures AttemptAccepted(run, pages, n) <==> AttemptComplete(run, pages, n)
      {
        AttemptCompleteExactly(run, pages, n);
      }
    }
  }

  // ----- The required gate -----

  /** Record `i` alone has the required name, its clocks are ordered, and it is this attempt's own. */
  ghost predicate Fresh(run: RunRecord, pages: map<int, seq<Page>>, n: nat, i: int)
    requires 1 <= n && HasPages(pages, n)
  {
    && 0 <= i < |Records(pages[n])|
    && var r := Records(pages[n])[i];
    && r.name == Some(REQUIRED) && ClocksOrdered(r)
    && (forall k :: 0 <= k < |Records(pages[n])| && k != i ==> Records(pages[n])[k].name != Some(REQUIRED))
    && !ListedBefore(pages, n, Or(r.id, 0)) && !Unattributed(run, n, r)
  }

  /** The fresh required job completed with success. */
  ghost predicate Succeeded(run: RunRecord, pages: map<int, seq<Page>>, n: nat, i: int)
    requires 1 <= n && HasPages(pages, n)
  {
    && Fresh(run, pages, n, i)
    && Records(pages[n])[i].conclusion == Given("success") && Records(pages[n])[i].status == Some("completed")
  }

  /** The attempt reports what its fresh required job says, and nothing when there is none. */
  ghost predicate ResultStands(run: RunRecord, pages: map<int, seq<Page>>, n: nat, attempt: Attempt)
    requires 1 <= n && HasPages(pages, n)
  {
    && (attempt.success.Some? <==> exists i :: Fresh(run, pages, n, i))
    && (attempt.success == Some(true) <==> exists i :: Succeeded(run, pages, n, i))
    && (attempt.success.None? ==> attempt.result == Missing && attempt.requiredCompleted == None)
    && forall i :: Fresh(run, pages, n, i) ==>
         && attempt.result == Records(pages[n])[i].conclusion
         && attempt.requiredCompleted == Some(Records(pages[n])[i].completed.ms)
  }

  lemma GateExactly(run: RunRecord, pages: map<int, seq<Page>>, n: nat, jobs: seq<Job>)
    requires 1 <= n && HasPages(pages, n) && JobsStand(run, pages, n, jobs)
    ensures Gate(jobs).Some? <==> exists i :: Fresh(run, pages, n, i)
    ensures forall i :: Fresh(run, pages, n, i) ==> i < |jobs| && Gate(jobs) == Some(jobs[i])
  {
    var records := Records(pages[n]);
    if Gate(jobs).Some? {
      var i := ListedIsAlone(jobs);
      assert JobStands(run, pages, n, records[i], jobs[i]);
      forall k | 0 <= k < |records| && k != i ensures records[k].name != Some(REQUIRED) {
        assert JobStands(run, pages, n, records[k], jobs[k]);
      }
      assert Fresh(run, pages, n, i);
    }
    forall i | Fresh(run, pages, n, i) ensures i < |jobs| && Gate(jobs) == Some(jobs[i]) {
      assert JobStands(run, pages, n, records[i], jobs[i]);
      forall k | 0 <= k < |jobs| && k != i ensures jobs[k].name != REQUIRED {
        assert JobStands(run, pages, n, records[k], jobs[k]);
      }
      AloneIsListed(jobs, i);
    }
  }

  lemma ResultIsExact(run: RunRecord, pages: map<int, seq<Page>>, n: nat, jobs: seq<Job>)
    requires 1 <= n && HasPages(pages, n) && JobsStand(run, pages, n, jobs)
    ensures ResultStands(run, pages, n, Summarise(n, jobs))
  {
    GateExactly(run, pages, n, jobs);
    forall i | Fresh(run, pages, n, i) ensures JobStands(run, pages, n, Records(pages[n])[i], jobs[i]) {}
    if exists i :: Fresh(run, pages, n, i) {
      var i :| Fresh(run, pages, n, i);
      assert Summarise(n, jobs).success == Some(true) ==> Succeeded(run, pages, n, i);
    }
  }

  // ----- Work -----

  /** The clocks of a job that an attempt is charged with. */
  datatype Span = Span(created: int, started: int, completed: int)

  ghost function SpanOf(run: RunRecord, pages: map<int, seq<Page>>, n: nat, r: JobRecord): Option<Span>
    requires HasPages(pages, n - 1)
  {
    if Charged(run, pages, n, r) then Some(Span(r.created.ms, r.started.ms, r.completed.ms)) else None
  }

  /** What the records charge the attempt with, record by record. */
  ghost function Spans(run: RunRecord, pages: map<int, seq<Page>>, n: nat): seq<Option<Span>>
    requires 1 <= n && HasPages(pages, n)
  {
    var records := Records(pages[n]);
    seq(|records|, i requires 0 <= i < |records| => SpanOf(run, pages, n, records[i]))
  }

  ghost function Charges(spans: seq<Option<Span>>): nat {
    if spans == [] then 0 else (if spans[0].Some? then 1 else 0) + Charges(spans[1..])
  }

  ghost function Waits(spans: seq<Option<Span>>): int {
    if spans == [] then 0
    else (if spans[0].Some? then spans[0].value.started - spans[0].value.created else 0) + Waits(spans[1..])
  }

  ghost function Runs(spans: seq<Option<Span>>): int {
    if spans == [] then 0
    else (if spans[0].Some? then spans[0].value.completed - spans[0].value.started else 0) + Runs(spans[1..])
  }

  /** Charged job `i` was created first of all, and charged job `j` completed last. */
  ghost predicate EndToEnd(spans: seq<Option<Span>>, i: int, j: int) {
    && 0 <= i < |spans| && 0 <= j < |spans| && spans[i].Some? && spans[j].Some?
    && forall k :: 0 <= k < |spans| && spans[k].Some? ==>
         && spans[i].value.created <= spans[k].value.created
         && spans[k].value.completed <= spans[j].value.completed
  }

  /** Charged jobs are counted, their waits and runs summed, and their wall taken end to end. */
  ghost predicate WorkStands(spans: seq<Option<Span>>, attempt: Attempt) {
    && attempt.counts.jobs == |spans| && attempt.counts.timed == Charges(spans)
    && attempt.queued == Waits(spans) && attempt.runner == Runs(spans)
    && WallStands(spans, attempt.wall)
  }

  ghost predicate WallStands(spans: seq<Option<Span>>, wall: Option<int>) {
    && (wall.Some? <==> exists i, j :: EndToEnd(spans, i, j))
    && forall i, j :: EndToEnd(spans, i, j) ==> wall == Some(spans[j].value.completed - spans[i].value.created)
  }

  /** The timed jobs are the charged ones, with the same clocks. */
  ghost predicate Matches(jobs: seq<Job>, spans: seq<Option<Span>>) {
    && |jobs| == |spans|
    && forall i :: 0 <= i < |jobs| ==> if Timed(jobs[i]) then HasSpan(jobs[i], spans[i]) else spans[i] == None
  }

  ghost predicate HasSpan(job: Job, span: Option<Span>) {
    && span.Some? && job.created == Some(span.value.created) && job.completed == Some(span.value.completed)
    && job.queued == Some(span.value.started - span.value.created)
    && job.execution == Some(span.value.completed - span.value.started)
  }

  lemma JobsMatch(run: RunRecord, pages: map<int, seq<Page>>, n: nat, jobs: seq<Job>)
    requires 1 <= n && HasPages(pages, n) && JobsStand(run, pages, n, jobs)
    ensures Matches(jobs, Spans(run, pages, n))
  {
    var spans := Spans(run, pages, n);
    forall i | 0 <= i < |jobs| ensures if Timed(jobs[i]) then HasSpan(jobs[i], spans[i]) else spans[i] == None {
      assert JobStands(run, pages, n, Records(pages[n])[i], jobs[i]);
    }
  }

  /** Summing the charged jobs is summing over all of them, the others counting nothing. */
  lemma {:induction false} SumsExactly(jobs: seq<Job>, spans: seq<Option<Span>>)
    requires Matches(jobs, spans)
    ensures |TimedJobs(jobs)| == Charges(spans)
    ensures QueuedTotal(TimedJobs(jobs)) == Waits(spans) && RunnerTotal(TimedJobs(jobs)) == Runs(spans)
  {
    if jobs != [] {
      SumsExactly(jobs[1..], spans[1..]);
      var rest := TimedJobs(jobs[1..]);
      if Timed(jobs[0]) {
        assert ([jobs[0]] + rest)[1..] == rest;
      } else {
        assert TimedJobs(jobs) == rest;
      }
    }
  }

  lemma {:induction false} EndsAttained(jobs: seq<Job>) returns (a: Job, b: Job)
    requires jobs != []
    ensures a in jobs && Or(a.created, 0) == Earliest(jobs) && b in jobs && Or(b.completed, 0) == Latest(jobs)
  {
    a, b := jobs[0], jobs[0];
    if |jobs| > 1 {
      var c, d := EndsAttained(jobs[1..]);
      if Or(c.created, 0) <= Or(a.created, 0) { a := c; }
      if Or(d.completed, 0) >= Or(b.completed, 0) { b := d; }
    }
  }

  lemma WallEnds(jobs: seq<Job>, spans: seq<Option<Span>>) returns (i: nat, j: nat)
    requires Matches(jobs, spans) && TimedJobs(jobs) != []
    ensures EndToEnd(spans, i, j)
    ensures Latest(TimedJobs(jobs)) - Earliest(TimedJobs(jobs)) == spans[j].value.completed - spans[i].value.created
  {
    var timed := TimedJobs(jobs);
    TimedJobsAreTimed(jobs);
    WallSpans(timed);
    var a, b := EndsAttained(timed);
    i :| 0 <= i < |jobs| && jobs[i] == a;
    j :| 0 <= j < |jobs| && jobs[j] == b;
    forall k | 0 <= k < |spans| && spans[k].Some?
      ensures spans[i].value.created <= spans[k].value.created && spans[k].value.completed <= spans[j].value.completed
    {
      assert jobs[k] in timed;
    }
  }

  lemma WallIsExact(jobs: seq<Job>, spans: seq<Option<Span>>, wall: Option<int>)
    requires Matches(jobs, spans)
    requires wall == if TimedJobs(jobs) == [] then None else Some(Latest(TimedJobs(jobs)) - Earliest(TimedJobs(jobs)))
    ensures WallStands(spans, wall)
  {
    if TimedJobs(jobs) != [] {
      var i, j := WallEnds(jobs, spans);
    } else {
      TimedJobsAreTimed(jobs);
      forall k | 0 <= k < |spans| ensures spans[k] == None { assert jobs[k] in jobs; }
    }
  }

  lemma WorkIsExact(n: nat, jobs: seq<Job>, spans: seq<Option<Span>>)
    requires Matches(jobs, spans)
    ensures WorkStands(spans, Summarise(n, jobs))
  {
    WallIsExact(jobs, spans, Summarise(n, jobs).wall);
    WorkOf(jobs, spans, Summarise(n, jobs));
  }

  lemma WorkOf(jobs: seq<Job>, spans: seq<Option<Span>>, attempt: Attempt)
    requires Matches(jobs, spans) && attempt.counts == Count(jobs)
    requires attempt.queued == QueuedTotal(TimedJobs(jobs)) && attempt.runner == RunnerTotal(TimedJobs(jobs))
    requires WallStands(spans, attempt.wall)
    ensures WorkStands(spans, attempt)
  {
    CountsAdd(jobs);
    SumsExactly(jobs, spans);
  }

  // ----- Counts -----

  ghost function HowMany(flags: seq<bool>): nat {
    if flags == [] then 0 else (if flags[0] then 1 else 0) + HowMany(flags[1..])
  }

  ghost function Total(values: seq<int>): int {
    if values == [] then 0 else values[0] + Total(values[1..])
  }

  /** Step `k` has clocks, in order, inside the job's own. */
  ghost predicate StepInside(r: JobRecord, k: nat)
    requires r.steps.Given? && k < |r.steps.value|
  {
    var step := r.steps.value[k];
    && step.started.At? && step.completed.At? && r.started.At? && r.completed.At?
    && r.started.ms <= step.started.ms && step.started.ms <= step.completed.ms && step.completed.ms <= r.completed.ms
  }

  ghost function StepsOutside(r: JobRecord): nat {
    if !r.steps.Given? then 0
    else HowMany(seq(|r.steps.value|, k requires 0 <= k < |r.steps.value| => !StepInside(r, k)))
  }

  ghost predicate CountsStand(run: RunRecord, pages: map<int, seq<Page>>, n: nat, counts: Counts)
    requires 1 <= n && HasPages(pages, n)
  {
    var rs := Records(pages[n]);
    && counts.unverified == HowMany(seq(|rs|, i requires 0 <= i < |rs| => Unattributed(run, n, rs[i])))
    && counts.anomalies == HowMany(seq(|rs|, i requires 0 <= i < |rs| => !ClocksOrdered(rs[i])))
    && counts.skipped == HowMany(seq(|rs|, i requires 0 <= i < |rs| => rs[i].conclusion == Given("skipped")))
    && counts.unassigned
       == HowMany(seq(|rs|, i requires 0 <= i < |rs| => rs[i].conclusion == Given("cancelled") && !RunnerSeen(rs[i])))
    && counts.steps == Total(seq(|rs|, i requires 0 <= i < |rs| => StepsOutside(rs[i])))
  }

  lemma {:induction false} AnomaliesExactly(steps: seq<StepRecord>, started: Option<int>, completed: Option<int>,
                                            flags: seq<bool>)
    requires |flags| == |steps|
    requires forall k :: 0 <= k < |steps| ==> flags[k] == !StepOrdered(steps[k], started, completed)
    ensures StepAnomalies(steps, started, completed) == HowMany(flags)
  {
    if steps != [] { AnomaliesExactly(steps[1..], started, completed, flags[1..]); }
  }

  lemma StepsExactly(r: JobRecord)
    ensures Measure(r).stepAnomalies == StepsOutside(r)
  {
    if r.steps.Given? {
      AnomaliesExactly(r.steps.value, Time(r.started), Time(r.completed),
                       seq(|r.steps.value|, k requires 0 <= k < |r.steps.value| => !StepInside(r, k)));
    }
  }

  /** Counting jobs is counting what holds of each. */
  lemma {:induction false} CountsExactly(jobs: seq<Job>, unverified: seq<bool>, anomalous: seq<bool>,
                                         skipped: seq<bool>, unassigned: seq<bool>, steps: seq<int>)
    requires |unverified| == |anomalous| == |skipped| == |unassigned| == |steps| == |jobs|
    requires forall i :: 0 <= i < |jobs| ==>
      && unverified[i] == jobs[i].unverified && anomalous[i] == (jobs[i].quality != Ordered)
      && skipped[i] == (jobs[i].conclusion == Given("skipped"))
      && unassigned[i] == (jobs[i].conclusion == Given("cancelled") && !jobs[i].runnerObserved)
      && steps[i] == jobs[i].stepAnomalies
    ensures Count(jobs).unverified == HowMany(unverified) && Count(jobs).anomalies == HowMany(anomalous)
    ensures Count(jobs).skipped == HowMany(skipped) && Count(jobs).unassigned == HowMany(unassigned)
    ensures Count(jobs).steps == Total(steps)
  {
    if jobs != [] {
      CountsExactly(jobs[1..], unverified[1..], anomalous[1..], skipped[1..], unassigned[1..], steps[1..]);
    }
  }

  /** What the counts look at. */
  ghost predicate MarksStand(run: RunRecord, n: nat, r: JobRecord, job: Job) {
    && job.unverified == Unattributed(run, n, r) && (job.quality == Ordered) == ClocksOrdered(r)
    && job.conclusion == r.conclusion && job.runnerObserved == RunnerSeen(r) && job.stepAnomalies == StepsOutside(r)
  }

  lemma CountsAreExact(run: RunRecord, pages: map<int, seq<Page>>, n: nat, jobs: seq<Job>)
    requires 1 <= n && HasPages(pages, n) && |jobs| == |Records(pages[n])|
    requires forall i :: 0 <= i < |jobs| ==> MarksStand(run, n, Records(pages[n])[i], jobs[i])
    ensures CountsStand(run, pages, n, Count(jobs))
  {
    var rs := Records(pages[n]);
    CountsExactly(jobs, seq(|rs|, i requires 0 <= i < |rs| => Unattributed(run, n, rs[i])),
                  seq(|rs|, i requires 0 <= i < |rs| => !ClocksOrdered(rs[i])),
                  seq(|rs|, i requires 0 <= i < |rs| => rs[i].conclusion == Given("skipped")),
                  seq(|rs|, i requires 0 <= i < |rs| => rs[i].conclusion == Given("cancelled") && !RunnerSeen(rs[i])),
                  seq(|rs|, i requires 0 <= i < |rs| => StepsOutside(rs[i])));
  }

  // ----- The report -----

  lemma AttemptAt(run: RunRecord, pages: map<int, seq<Page>>, n: nat)
    requires RunAccepted(run, pages) && 1 <= n <= run.runAttempt.value
    ensures Attempts(run, pages, run.runAttempt.value)[n - 1] == Summarise(n, JobsOf(run, pages, n))
    ensures AttemptAccepted(run, pages, n)
  {
  }

  /** Every attempt lists the jobs of its records, each saying what its record says. */
  lemma JobsReported(run: RunRecord, pages: map<int, seq<Page>>, n: nat)
    requires RunAccepted(run, pages) && 1 <= n <= run.runAttempt.value
    ensures var attempt := Attempts(run, pages, run.runAttempt.value)[n - 1];
      attempt.number == n && JobsStand(run, pages, n, attempt.jobs)
  {
    AttemptAt(run, pages, n);
    JobsAreExact(run, pages, n);
  }

  /** Every attempt reports the result of its fresh required job and no other. */
  lemma ResultReported(run: RunRecord, pages: map<int, seq<Page>>, n: nat)
    requires RunAccepted(run, pages) && 1 <= n <= run.runAttempt.value
    ensures ResultStands(run, pages, n, Attempts(run, pages, run.runAttempt.value)[n - 1])
  {
    AttemptAt(run, pages, n);
    JobsAreExact(run, pages, n);
    ResultIsExact(run, pages, n, JobsOf(run, pages, n));
  }

  /** Every attempt reports the waiting, the running and the wall of the jobs it is charged with. */
  lemma WorkReported(run: RunRecord, pages: map<int, seq<Page>>, n: nat)
    requires RunAccepted(run, pages) && 1 <= n <= run.runAttempt.value
    ensures WorkStands(Spans(run, pages, n), Attempts(run, pages, run.runAttempt.value)[n - 1])
  {
    AttemptAt(run, pages, n);
    JobsAreExact(run, pages, n);
    JobsMatch(run, pages, n, JobsOf(run, pages, n));
    WorkIsExact(n, JobsOf(run, pages, n), Spans(run, pages, n));
  }

  /** Every attempt counts its unattributed, badly timed, skipped and unassigned jobs and its steps out of place. */
  lemma CountsReported(run: RunRecord, pages: map<int, seq<Page>>, n: nat)
    requires RunAccepted(run, pages) && 1 <= n <= run.runAttempt.value
    ensures CountsStand(run, pages, n, Attempts(run, pages, run.runAttempt.value)[n - 1].counts)
  {
    var jobs := JobsOf(run, pages, n);
    AttemptAt(run, pages, n);
    JobsAreExact(run, pages, n);
    forall i | 0 <= i < |jobs| ensures MarksStand(run, n, Records(pages[n])[i], jobs[i]) {
      assert JobStands(run, pages, n, Records(pages[n])[i], jobs[i]);
      StepsExactly(Records(pages[n])[i]);
    }
    CountsAreExact(run, pages, n, jobs);
  }

  /** A fresh required job of an accepted run was created within the run. */
  lemma FreshWithinRun(run: RunRecord, pages: map<int, seq<Page>>, n: nat, i: int)
    requires RunAccepted(run, pages) && 1 <= n <= run.runAttempt.value && Fresh(run, pages, n, i)
    ensures run.created.ms <= Records(pages[n])[i].created.ms <= Records(pages[n])[i].completed.ms
  {
    var jobs := JobsOf(run, pages, n);
    assert AttemptAccepted(run, pages, n);
    JobsAreExact(run, pages, n);
    assert JobStands(run, pages, n, Records(pages[n])[i], jobs[i]);
    assert jobs[i] in jobs;
  }

  /** The time from the run's creation to the completion of its fresh required job, when both ended in success. */
  ghost predicate LatestStands(run: RunRecord, pages: map<int, seq<Page>>, last: nat, latestMs: Option<int>)
    requires 1 <= last && HasPages(pages, last) && run.created.At?
  {
    && (latestMs.Some? <==>
          && run.status == Some("completed") && run.conclusion == Some("success")
          && exists i :: Succeeded(run, pages, last, i))
    && forall i :: latestMs.Some? && Fresh(run, pages, last, i) ==>
         latestMs == Some(Records(pages[last])[i].completed.ms - run.created.ms)
  }

  lemma LatestIsExact(run: RunRecord, pages: map<int, seq<Page>>, latest: Attempt)
    requires RunAccepted(run, pages) && ResultStands(run, pages, run.runAttempt.value, latest)
    ensures LatestStands(run, pages, run.runAttempt.value, LatestMs(run, latest))
  {
    var last := run.runAttempt.value;
    forall i | Fresh(run, pages, last, i) ensures Records(pages[last])[i].completed.ms >= run.created.ms {
      FreshWithinRun(run, pages, last, i);
    }
    forall i | Succeeded(run, pages, last, i) ensures Fresh(run, pages, last, i) {}
  }

  /** The run's first success is that of attempt 1. */
  lemma FirstReported(run: RunRecord, pages: map<int, seq<Page>>)
    requires RunAccepted(run, pages)
    ensures var first := ReportOf(run, Attempts(run, pages, run.runAttempt.value)).firstSuccess;
      && (first.Some? <==> exists i :: Fresh(run, pages, 1, i))
      && (first == Some(true) <==> exists i :: Succeeded(run, pages, 1, i))
  {
    ResultReported(run, pages, 1);
  }

  /** The run's latest time is that of its last attempt. */
  lemma LatestReported(run: RunRecord, pages: map<int, seq<Page>>)
    requires RunAccepted(run, pages)
    ensures LatestStands(run, pages, run.runAttempt.value,
                         ReportOf(run, Attempts(run, pages, run.runAttempt.value)).latestMs)
  {
    var last := run.runAttempt.value;
    LatestOf(run, Attempts(run, pages, last), last);
    ResultReported(run, pages, last);
    LatestIsExact(run, pages, Attempts(run, pages, last)[last - 1]);
  }

  lemma LatestOf(run: RunRecord, attempts: seq<Attempt>, last: nat)
    requires last > 0 && |attempts| == last
    ensures ReportOf(run, attempts).latestMs == LatestMs(run, attempts[last - 1])
  {
  }
}
