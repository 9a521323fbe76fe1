/** Attempt-aware timing of a workflow run, from the API's records. Clocks are whole milliseconds. */
module AttemptMetrics {
  import opened Common
  import opened Lines

  datatype Clock = Absent | At(ms: int) | Malformed

  /** A field of a record, where a value of the wrong type is treated unlike a missing one. */
  datatype Field<+T> = Missing | Mistyped | Given(value: T)

  datatype StepRecord = StepRecord(name: Option<string>, started: Clock, completed: Clock)

  /**
   * A job as reported. None stands for a missing field or one of the wrong type, where the two are
   * treated alike; `steps` is mistyped also when one of its elements is no object.
   */
  datatype JobRecord = JobRecord(
    id: Option<int>, runId: Option<int>, headSha: Option<string>, runAttempt: Option<int>, name: Option<string>,
    status: Option<string>, conclusion: Field<string>, created: Clock, started: Clock, completed: Clock,
    runnerName: Option<string>, runnerId: Option<int>, steps: Field<seq<StepRecord>>)

  datatype Page = Page(totalCount: Option<int>, jobs: Option<seq<JobRecord>>)

  datatype RunRecord = RunRecord(
    id: Option<int>, runAttempt: Option<int>, headSha: Option<string>, created: Clock, updated: Clock, started: Clock,
    status: Option<string>, conclusion: Option<string>)

  datatype Quality = MissingTimestamp | InconsistentOrder | Ordered

  /** A measured job. `queued` and `execution` are present only for work this attempt may be charged with. */
  datatype Job = Job(
    id: int, name: string, status: Option<string>, conclusion: Field<string>, quality: Quality,
    created: Option<int>, started: Option<int>, completed: Option<int>,
    queued: Option<int>, execution: Option<int>, runnerObserved: bool, stepAnomalies: nat,
    inherited: bool, unverified: bool)

  const REQUIRED := "CI required"

  function Time(c: Clock): Option<int> {
    if c.At? then Some(c.ms) else None
  }

  function QualityOf(created: Option<int>, started: Option<int>, completed: Option<int>): Quality {
    if created.None? || started.None? || completed.None? then MissingTimestamp
    else if created.value <= started.value <= completed.value then Ordered
    else InconsistentOrder
  }

  predicate IsPythonSpace(c: char) {
    IsWhitespace(c) || '\U{1c}' <= c <= '\U{1f}'
  }

  predicate NamesRunner(name: Option<string>) {
    name.Some? && exists i :: 0 <= i < |name.value| && !IsPythonSpace(name.value[i])
  }

  /** The step ran inside the job's own interval. */
  predicate StepOrdered(step: StepRecord, started: Option<int>, completed: Option<int>) {
    && step.started.At? && step.completed.At? && started.Some? && completed.Some?
    && started.value <= step.started.ms <= step.completed.ms <= completed.value
  }

  /** The number of steps that did not run inside the job's interval, as far as the clocks tell. */
  function StepAnomalies(steps: seq<StepRecord>, started: Option<int>, completed: Option<int>): nat {
    if steps == [] then 0
    else (if StepOrdered(steps[0], started, completed) then 0 else 1) + StepAnomalies(steps[1..], started, completed)
  }

  predicate SetUp(step: StepRecord, started: Option<int>, completed: Option<int>) {
    step.name == Some("Set up job") && StepOrdered(step, started, completed)
  }

  predicate WellTimedSteps(steps: seq<StepRecord>) {
    forall i :: 0 <= i < |steps| ==> !steps[i].started.Malformed? && !steps[i].completed.Malformed?
  }

  predicate RunnerObserved(r: JobRecord) {
    || NamesRunner(r.runnerName)
    || (r.runnerId.Some? && r.runnerId.value > 0)
    || (r.steps.Given? && exists s :: s in r.steps.value && SetUp(s, Time(r.started), Time(r.completed)))
  }

  predicate Executed(r: JobRecord) {
    && QualityOf(Time(r.created), Time(r.started), Time(r.completed)) == Ordered
    && r.status == Some("completed") && r.conclusion !in {Missing, Given("skipped")} && RunnerObserved(r)
  }

  predicate Measurable(r: JobRecord, attempt: int, runId: int, headSha: string) {
    && r.id.Some? && r.id.value > 0
    && r.runId == Some(runId) && r.headSha == Some(headSha) && r.runAttempt == Some(attempt)
    && r.name.Some? && r.name.value != ""
    && !r.created.Malformed? && !r.started.Malformed? && !r.completed.Malformed?
    && !r.steps.Mistyped? && (r.steps.Given? ==> WellTimedSteps(r.steps.value))
  }

  function Or<T>(o: Option<T>, default: T): T {
    if o.Some? then o.value else default
  }

  function Measure(r: JobRecord): Job {
    var created, started, completed := Time(r.created), Time(r.started), Time(r.completed);
    Job(Or(r.id, 0), Or(r.name, ""), r.status, r.conclusion, QualityOf(created, started, completed),
        created, started, completed,
        if Executed(r) then Some(started.value - created.value) else None,
        if Executed(r) then Some(completed.value - started.value) else None,
        RunnerObserved(r), if r.steps.Given? then StepAnomalies(r.steps.value, started, completed) else 0,
        false, false)
  }

  // ----- One attempt's pages -----

  /** The rows of the pages, in order. */
  function Records(pages: seq<Page>): seq<JobRecord> {
    if pages == [] then [] else Records(pages[..|pages| - 1]) + Or(pages[|pages| - 1].jobs, [])
  }

  predicate PageConsistent(page: Page, first: Page) {
    && page.totalCount.Some? && page.totalCount.value >= 0
    && page.totalCount == first.totalCount && page.jobs.Some?
  }

  function Ids(records: seq<JobRecord>): set<Option<int>> {
    set r | r in records :: r.id
  }

  ghost predicate RecordsAccepted(records: seq<JobRecord>, attempt: int, runId: int, headSha: string) {
    && (forall i :: 0 <= i < |records| ==> Measurable(records[i], attempt, runId, headSha))
    && (forall i, j :: 0 <= i < j < |records| ==> records[i].id != records[j].id)
  }

  /** The pages agree on a total and hold that many jobs of the attempt, each once. */
  ghost predicate PagesAccepted(pages: seq<Page>, attempt: int, runId: int, headSha: string) {
    && pages != []
    && (forall i :: 0 <= i < |pages| ==> PageConsistent(pages[i], pages[0]))
    && RecordsAccepted(Records(pages), attempt, runId, headSha)
    && pages[0].totalCount == Some(|Records(pages)|)
  }

  function MeasureAll(records: seq<JobRecord>): seq<Job> {
    seq(|records|, i requires 0 <= i < |records| => Measure(records[i]))
  }

  lemma AppendRecord(read: seq<JobRecord>, r: JobRecord, attempt: int, runId: int, headSha: string)
    requires RecordsAccepted(read, attempt, runId, headSha)
    ensures RecordsAccepted(read + [r], attempt, runId, headSha)
       <==> Measurable(r, attempt, runId, headSha) && r.id !in Ids(read)
    ensures Ids(read + [r]) == Ids(read) + {r.id}
    ensures MeasureAll(read + [r]) == MeasureAll(read) + [Measure(r)]
  {
    var longer := read + [r];
    assert longer[|read|] == r && forall i :: 0 <= i < |read| ==> longer[i] == read[i];
    if r.id in Ids(read) {
      var q :| q in read && q.id == r.id;
      var i :| 0 <= i < |read| && read[i] == q;
      assert longer[i].id == longer[|read|].id;
    }
  }

  lemma PrefixAccepted(all: seq<JobRecord>, read: seq<JobRecord>, attempt: int, runId: int, headSha: string)
    requires RecordsAccepted(all, attempt, runId, headSha) && read <= all
    ensures RecordsAccepted(read, attempt, runId, headSha)
  {
    assert forall i :: 0 <= i < |read| ==> read[i] == all[i];
  }

  /** One page's rows, added to what was read before. */
  method AddRows(rows: seq<JobRecord>, attempt: int, runId: int, headSha: string,
                 before: seq<Job>, idsBefore: set<Option<int>>, ghost read: seq<JobRecord>)
    returns (ok: bool, jobs: seq<Job>, ids: set<Option<int>>)
    requires RecordsAccepted(read, attempt, runId, headSha) && idsBefore == Ids(read) && before == MeasureAll(read)
    ensures ok <==> RecordsAccepted(read + rows, attempt, runId, headSha)
    ensures ok ==> ids == Ids(read + rows) && jobs == MeasureAll(read + rows)
  {
    jobs, ids := before, idsBefore;
    assert read + rows[..0] == read;
    for k := 0 to |rows|
      invariant RecordsAccepted(read + rows[..k], attempt, runId, headSha)
      invariant ids == Ids(read + rows[..k]) && jobs == MeasureAll(read + rows[..k])
    {
      AppendRecord(read + rows[..k], rows[k], attempt, runId, headSha);
      assert read + rows[..k] + [rows[k]] == read + rows[..k + 1];
      if !Measurable(rows[k], attempt, runId, headSha) || rows[k].id in ids {
        if RecordsAccepted(read + rows, attempt, runId, headSha) {
          PrefixAccepted(read + rows, read + rows[..k + 1], attempt, runId, headSha);
        }
        return false, jobs, ids;
      }
      ids := ids + {rows[k].id};
      jobs := jobs + [Measure(rows[k])];
    }
    assert rows[..|rows|] == rows;
    ok := true;
  }

  lemma RecordsThrough(pages: seq<Page>, p: nat)
    requires p < |pages| && pages[p].jobs.Some?
    ensures Records(pages[..p + 1]) == Records(pages[..p]) + pages[p].jobs.value
  {
    assert pages[..p + 1][..p] == pages[..p];
  }

  lemma {:induction false} RecordsPrefix(pages: seq<Page>, n: nat)
    requires n <= |pages|
    ensures Records(pages[..n]) <= Records(pages)
    decreases |pages|
  {
    if n == |pages| {
      assert pages[..n] == pages;
    } else {
      assert pages[..|pages| - 1][..n] == pages[..n];
      RecordsPrefix(pages[..|pages| - 1], n);
    }
  }

  /** Rows that are refused after some pages are refused in the end. */
  lemma StaysRefused(pages: seq<Page>, n: nat, attempt: int, runId: int, headSha: string)
    requires n <= |pages| && !RecordsAccepted(Records(pages[..n]), attempt, runId, headSha)
    ensures !PagesAccepted(pages, attempt, runId, headSha)
  {
    RecordsPrefix(pages, n);
    if RecordsAccepted(Records(pages), attempt, runId, headSha) {
      PrefixAccepted(Records(pages), Records(pages[..n]), attempt, runId, headSha);
    }
  }

  /** Gathers every page of an attempt, growing the job list and the id set. */
  method CompleteJobs(pages: seq<Page>, attempt: int, runId: int, headSha: string) returns (r: Option<seq<Job>>)
    ensures r.Some? <==> PagesAccepted(pages, attempt, runId, headSha)
    ensures r.Some? ==> r.value == MeasureAll(Records(pages))
  {
    if pages == [] { return None; }
    var jobs: seq<Job> := [];
    var ids: set<Option<int>> := {};
    for p := 0 to |pages|
      invariant forall i :: 0 <= i < p ==> PageConsistent(pages[i], pages[0])
      invariant RecordsAccepted(Records(pages[..p]), attempt, runId, headSha)
      invariant ids == Ids(Records(pages[..p])) && jobs == MeasureAll(Records(pages[..p]))
    {
      if !PageConsistent(pages[p], pages[0]) { return None; }
      RecordsThrough(pages, p);
      var ok;
      ok, jobs, ids := AddRows(pages[p].jobs.value, attempt, runId, headSha, jobs, ids, Records(pages[..p]));
      if !ok {
        StaysRefused(pages, p + 1, attempt, runId, headSha);
        return None;
      }
    }
    assert pages[..|pages|] == pages;
    if Some(|jobs|) != pages[0].totalCount { return None; }
    return Some(jobs);
  }
}
