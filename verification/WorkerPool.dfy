/** The bounded pool that tests channels: a feeder, some workers, a closer and a
    collector talk over unbuffered channels while a caller may cancel at any moment.
    Each atomic action of a goroutine is one event; a run is any sequence of enabled
    events, so a fact about all runs is a fact about all interleavings. */
module WorkerPool {

  // ---------------------------------------------------------------------------
  // The outcome of one test
  // ---------------------------------------------------------------------------

  datatype Summary = Summary(tested: nat, succeeded: nat, failed: nat, disabled: nat, enabled: nat)

  const ZERO := Summary(0, 0, 0, 0, 0)

  function Plus(a: Summary, b: Summary): Summary {
    Summary(a.tested + b.tested, a.succeeded + b.succeeded, a.failed + b.failed,
            a.disabled + b.disabled, a.enabled + b.enabled)
  }

  predicate Balanced(s: Summary) {
    s.tested == s.succeeded + s.failed && s.disabled + s.enabled <= s.tested
  }

  /** What is known once the upstream answered.  `banning` says whether the reported
      error is one that disables channels; `mayEnable` decides re-enabling, given
      whether there is an error. */
  datatype Probe = Probe(
    cancelled: bool, wasEnabled: bool, apiError: bool, banning: bool, localError: bool,
    autoDisable: bool, slow: bool, allowDisable: bool, autoBan: bool, mayEnable: bool -> bool)

  function One(yes: bool): nat {
    if yes then 1 else 0
  }

  predicate Fails(p: Probe) {
    p.apiError || (p.autoDisable && p.slow)
  }

  predicate Bans(p: Probe) {
    p.wasEnabled && p.allowDisable && p.autoBan && ((p.apiError && p.banning) || (p.autoDisable && p.slow))
  }

  predicate Unbans(p: Probe) {
    !p.wasEnabled && !p.localError && p.mayEnable(Fails(p))
  }

  /** What a test adds to the sum: nothing once the run is cancelled. */
  function Outcome(p: Probe): Summary {
    if p.cancelled then ZERO
    else Summary(1, One(!Fails(p)), One(Fails(p)), One(Bans(p)), One(Unbans(p)))
  }

  method TestChannel(p: Probe) returns (summary: Summary)
    ensures summary == Outcome(p) && Balanced(summary)
  {
    summary := ZERO;
    if p.cancelled {
      return;
    }
    summary := summary.(tested := summary.tested + 1);
    var shouldBan := false;
    var hasError := p.apiError;
    if hasError {
      shouldBan := p.banning;
    }
    if p.autoDisable && !shouldBan {
      if p.slow {
        hasError := true;
        shouldBan := true;
      }
    }
    if !hasError {
      summary := summary.(succeeded := summary.succeeded + 1);
    } else {
      summary := summary.(failed := summary.failed + 1);
    }
    if p.allowDisable && p.wasEnabled && shouldBan && p.autoBan {
      summary := summary.(disabled := summary.disabled + 1);
    }
    if !p.localError && !p.wasEnabled && p.mayEnable(hasError) {
      summary := summary.(enabled := summary.enabled + 1);
    }
  }

  // ---------------------------------------------------------------------------
  // The pool
  // ---------------------------------------------------------------------------

  /** `skip[j]`: channel j is missing or switched off by hand, so it is not tested.
      `pauses`: workers wait between two tests. */
  datatype Config = Config(skip: seq<bool>, workers: nat, pauses: bool) {
    ghost predicate Valid() {
      0 < workers <= |skip|
    }
    function Total(): nat { |skip| }
  }

  datatype Worker =
    | Idle
    | Got(job: nat)
    | Running(job: nat)
    | Sending(job: nat, result: Summary)
    | Pausing
    | Exited

  datatype Collector = Waiting | Adding(job: nat, result: Summary) | Finished

  datatype Job = Job(job: nat, result: Summary)

  /** `next` jobs were handed out.  The last three fields are history: the jobs whose
      test was started, those given up because of cancellation, and those summed. */
  datatype Pool = Pool(
    next: nat, feeding: bool, jobsClosed: bool, workers: seq<Worker>, closing: bool, resultsClosed: bool,
    collector: Collector, cancelled: bool,
    summary: Summary, processed: nat, reports: seq<int>,
    started: seq<nat>, dropped: seq<nat>, added: seq<Job>)

  function Start(c: Config): Pool {
    Pool(0, true, false, seq(c.workers, _ => Idle), true, false, Waiting, false, ZERO, 0, [0],
         [], [], [])
  }

  datatype Event =
    | Cancel
    | HandOff(w: nat)
    | StopFeeding
    | CheckJob(w: nat)
    | RunDone(w: nat, probe: Probe)
    | Exit(w: nat)
    | Collect(w: nat)
    | Resume(w: nat)
    | Account
    | CloseResults
    | FinishCollecting

  /** A send is enabled whenever its two partners are ready, closed or not: that the
      channel is still open is a theorem, not a guard. */
  ghost predicate Enabled(c: Config, s: Pool, e: Event) {
    match e
    case Cancel => !s.cancelled
    case HandOff(w) => s.feeding && s.next < c.Total() && w < |s.workers| && s.workers[w].Idle?
    case StopFeeding => s.feeding && (s.cancelled || s.next == c.Total())
    case CheckJob(w) => w < |s.workers| && s.workers[w].Got?
    case RunDone(w, probe) => w < |s.workers| && s.workers[w].Running? && (probe.cancelled ==> s.cancelled)
    case Exit(w) =>
      && w < |s.workers|
      && (|| (s.workers[w].Idle? && (s.cancelled || s.jobsClosed))
          || (s.workers[w].Pausing? && s.cancelled))
    case Collect(w) => w < |s.workers| && s.workers[w].Sending? && s.collector.Waiting?
    case Resume(w) => w < |s.workers| && s.workers[w].Pausing?
    case Account => s.collector.Adding?
    case CloseResults => s.closing && AllExited(s)
    case FinishCollecting => s.collector.Waiting? && s.resultsClosed
  }

  ghost predicate AllExited(s: Pool) {
    forall w :: 0 <= w < |s.workers| ==> s.workers[w].Exited?
  }

  function Runs(c: Config, job: nat): bool {
    job < |c.skip| && !c.skip[job]
  }

  function Move(s: Pool, w: nat, to: Worker): Pool
    requires w < |s.workers|
  {
    s.(workers := s.workers[w := to])
  }

  /** What happens to a job a worker has just received. */
  function Checked(c: Config, s: Pool, w: nat, job: nat): Pool
    requires w < |s.workers|
  {
    if s.cancelled then Move(s, w, Exited).(dropped := s.dropped + [job])
    else if Runs(c, job) then Move(s, w, Running(job)).(started := s.started + [job])
    else Move(s, w, Sending(job, ZERO))
  }

  /** Adds a received result; progress is reported unless the run was cancelled. */
  function Accounted(s: Pool, job: nat, result: Summary): Pool {
    s.(collector := Waiting, summary := Plus(s.summary, result), processed := s.processed + 1,
       reports := if s.cancelled then s.reports else s.reports + [s.processed + 1],
       added := s.added + [Job(job, result)])
  }

  ghost function Apply(c: Config, s: Pool, e: Event): Pool
    requires Enabled(c, s, e)
  {
    match e
    case Cancel => s.(cancelled := true)
    case HandOff(w) => Move(s, w, Got(s.next)).(next := s.next + 1)
    case StopFeeding => s.(feeding := false, jobsClosed := true)
    case CheckJob(w) => Checked(c, s, w, s.workers[w].job)
    case RunDone(w, probe) => Move(s, w, Sending(s.workers[w].job, Outcome(probe)))
    case Exit(w) => Move(s, w, Exited)
    case Collect(w) =>
      Move(s, w, if c.pauses then Pausing else Idle).(
        collector := Adding(s.workers[w].job, s.workers[w].result))
    case Resume(w) => Move(s, w, Idle)
    case Account => Accounted(s, s.collector.job, s.collector.result)
    case CloseResults => s.(closing := false, resultsClosed := true)
    case FinishCollecting => s.(collector := Finished)
  }

  // ---------------------------------------------------------------------------
  // Where every job is
  // ---------------------------------------------------------------------------

  /** Which jobs are being counted: all of them, or one. */
  datatype Which = Any | Only(job: nat)

  predicate Picks(j: Which, job: nat) {
    j.Any? || j.job == job
  }

  /** Counts `job` if it is picked; with `ran`, only if its test was started. */
  function Mark(c: Config, job: nat, ran: bool, j: Which): nat {
    if Picks(j, job) && (ran ==> Runs(c, job)) then 1 else 0
  }

  /** How many of the first `next` jobs are picked. */
  function Issued(next: nat, j: Which): nat {
    if j.Any? then next else if j.job < next then 1 else 0
  }

  function JobOf(c: Config, w: Worker, ran: bool, j: Which): nat {
    match w
    case Got(job) => if ran then 0 else Mark(c, job, ran, j)
    case Running(job) => Mark(c, job, ran, j)
    case Sending(job, _) => Mark(c, job, ran, j)
    case _ => 0
  }

  function Held(c: Config, ws: seq<Worker>, ran: bool, j: Which): nat {
    if ws == [] then 0 else JobOf(c, ws[0], ran, j) + Held(c, ws[1..], ran, j)
  }

  function Received(c: Config, col: Collector, ran: bool, j: Which): nat {
    if col.Adding? then Mark(c, col.job, ran, j) else 0
  }

  function Summed(c: Config, jobs: seq<Job>, ran: bool, j: Which): nat {
    if jobs == [] then 0
    else Summed(c, jobs[..|jobs| - 1], ran, j) + Mark(c, jobs[|jobs| - 1].job, ran, j)
  }

  function Total(jobs: seq<Job>): Summary {
    if jobs == [] then ZERO else Plus(Total(jobs[..|jobs| - 1]), jobs[|jobs| - 1].result)
  }

  function Times(jobs: seq<nat>, j: Which): nat {
    if jobs == [] then 0
    else Times(jobs[..|jobs| - 1], j) + if Picks(j, jobs[|jobs| - 1]) then 1 else 0
  }

  lemma TimesSnoc(jobs: seq<nat>, job: nat, j: Which)
    ensures Times(jobs + [job], j) == Times(jobs, j) + if Picks(j, job) then 1 else 0
  {
    assert (jobs + [job])[..|jobs|] == jobs;
  }

  /** How many picked jobs are at a worker, at the collector or in the sum. */
  function Places(c: Config, s: Pool, ran: bool, j: Which): nat {
    Held(c, s.workers, ran, j) + Received(c, s.collector, ran, j) + Summed(c, s.added, ran, j)
  }

  lemma {:induction false} HeldAfterMove(c: Config, ws: seq<Worker>, w: nat, to: Worker, ran: bool, j: Which)
    requires w < |ws|
    ensures Held(c, ws[w := to], ran, j) + JobOf(c, ws[w], ran, j) == Held(c, ws, ran, j) + JobOf(c, to, ran, j)
  {
    if w == 0 {
      assert ws[0 := to][1..] == ws[1..];
    } else {
      HeldAfterMove(c, ws[1..], w - 1, to, ran, j);
      assert ws[w := to][1..] == ws[1..][w - 1 := to];
    }
  }

  lemma {:induction false} HeldNothing(c: Config, ws: seq<Worker>, ran: bool, j: Which)
    requires forall w :: 0 <= w < |ws| ==> JobOf(c, ws[w], ran, j) == 0
    ensures Held(c, ws, ran, j) == 0
  {
    if ws != [] {
      HeldNothing(c, ws[1..], ran, j);
    }
  }

  lemma SummedSnoc(c: Config, jobs: seq<Job>, job: Job, ran: bool, j: Which)
    ensures Summed(c, jobs + [job], ran, j) == Summed(c, jobs, ran, j) + Mark(c, job.job, ran, j)
  {
    assert (jobs + [job])[..|jobs|] == jobs;
  }

  lemma TotalSnoc(jobs: seq<Job>, job: Job)
    ensures Total(jobs + [job]) == Plus(Total(jobs), job.result)
  {
    assert (jobs + [job])[..|jobs|] == jobs;
  }

  // ---------------------------------------------------------------------------
  // The invariant
  // ---------------------------------------------------------------------------

  /** 0, 1, ..., n - 1. */
  function Upto(n: nat): seq<int> {
    if n == 0 then [] else Upto(n - 1) + [n - 1]
  }

  /** A result is balanced, empty for a channel that is not tested, and counts one test for
      the others, unless the run was cancelled. */
  ghost predicate Genuine(c: Config, cancelled: bool, job: nat, result: Summary) {
    && Balanced(result) && (!Runs(c, job) ==> result == ZERO)
    && (Runs(c, job) && !cancelled ==> result.tested == 1)
  }

  ghost predicate WorkerOk(c: Config, s: Pool, w: Worker) {
    && (w.Running? ==> Runs(c, w.job))
    && (w.Sending? ==> Genuine(c, s.cancelled, w.job, w.result))
    && (w.Exited? ==> s.cancelled || s.jobsClosed)
    && (s.resultsClosed ==> w.Exited?)
  }

  /** Every job handed out is in exactly one place or was given up, and the started
      ones are those whose result is there or still to come. */
  ghost predicate ConservedAt(c: Config, s: Pool, j: Which) {
    && Places(c, s, false, j) + Times(s.dropped, j) == Issued(s.next, j)
    && Places(c, s, true, j) == Times(s.started, j)
  }

  ghost predicate Conserved(c: Config, s: Pool) {
    forall j :: ConservedAt(c, s, j)
  }

  ghost predicate Protocol(c: Config, s: Pool) {
    && |s.workers| == c.workers && s.next <= c.Total()
    && s.feeding == !s.jobsClosed && s.closing == !s.resultsClosed
    && (s.jobsClosed ==> s.cancelled || s.next == c.Total())
    && (forall w :: 0 <= w < |s.workers| ==> WorkerOk(c, s, s.workers[w]))
    && (s.collector.Finished? ==> s.resultsClosed)
    && (s.dropped != [] ==> s.cancelled)
  }

  ghost predicate AllGenuine(c: Config, cancelled: bool, jobs: seq<Job>) {
    forall i :: 0 <= i < |jobs| ==> Genuine(c, cancelled, jobs[i].job, jobs[i].result)
  }

  /** Progress was reported as 0, 1, 2, ... up to date, or up to the cancellation. */
  ghost predicate Reported(reports: seq<int>, processed: nat, cancelled: bool) {
    && 0 < |reports| <= processed + 1
    && (!cancelled ==> |reports| == processed + 1)
    && reports == Upto(|reports|)
  }

  ghost predicate Tallied(c: Config, s: Pool) {
    && (s.collector.Adding? ==> Genuine(c, s.cancelled, s.collector.job, s.collector.result))
    && AllGenuine(c, s.cancelled, s.added)
    && s.summary == Total(s.added) && s.processed == |s.added|
    && Reported(s.reports, s.processed, s.cancelled)
  }

  ghost predicate Inv(c: Config, s: Pool) {
    Conserved(c, s) && Protocol(c, s) && Tallied(c, s)
  }

  lemma StartInv(c: Config)
    requires c.Valid()
    ensures Inv(c, Start(c))
  {
    forall j ensures ConservedAt(c, Start(c), j) {
      HeldNothing(c, Start(c).workers, false, j);
      HeldNothing(c, Start(c).workers, true, j);
    }
  }

  lemma PlacesAfterMove(c: Config, s: Pool, w: nat, to: Worker, ran: bool, j: Which)
    requires w < |s.workers|
    ensures Places(c, Move(s, w, to), ran, j) ==
            Places(c, s, ran, j) - JobOf(c, s.workers[w], ran, j) + JobOf(c, to, ran, j)
  {
    HeldAfterMove(c, s.workers, w, to, ran, j);
  }

  lemma SamePlaces(c: Config, s: Pool, s': Pool, ran: bool, j: Which)
    requires s'.workers == s.workers && s'.collector == s.collector && s'.added == s.added
    ensures Places(c, s', ran, j) == Places(c, s, ran, j)
  {
  }

  /** What counts for conservation, in numbers. */
  lemma ConservedNumbers(c: Config, s: Pool, s': Pool, j: Which, given: int, begun: int)
    requires ConservedAt(c, s, j)
    requires Places(c, s', false, j) + Times(s'.dropped, j) == Places(c, s, false, j) + Times(s.dropped, j) + given
    requires Issued(s'.next, j) == Issued(s.next, j) + given
    requires Places(c, s', true, j) == Places(c, s, true, j) + begun
    requires Times(s'.started, j) == Times(s.started, j) + begun
    ensures ConservedAt(c, s', j)
  {
  }

  lemma HandOffConserves(c: Config, s: Pool, w: nat, j: Which)
    requires ConservedAt(c, s, j) && Enabled(c, s, HandOff(w))
    ensures ConservedAt(c, Apply(c, s, HandOff(w)), j)
  {
    var to := Got(s.next);
    PlacesAfterMove(c, s, w, to, false, j);
    PlacesAfterMove(c, s, w, to, true, j);
    var s' := Apply(c, s, HandOff(w));
    SamePlaces(c, Move(s, w, to), s', false, j);
    SamePlaces(c, Move(s, w, to), s', true, j);
    ConservedNumbers(c, s, s', j, One(Picks(j, s.next)), 0);
  }

  lemma DropConserves(c: Config, s: Pool, w: nat, j: Which)
    requires ConservedAt(c, s, j) && w < |s.workers| && s.workers[w].Got?
    ensures ConservedAt(c, Move(s, w, Exited).(dropped := s.dropped + [s.workers[w].job]), j)
  {
    var moved := Move(s, w, Exited);
    var s' := moved.(dropped := s.dropped + [s.workers[w].job]);
    PlacesAfterMove(c, s, w, Exited, false, j);
    PlacesAfterMove(c, s, w, Exited, true, j);
    TimesSnoc(s.dropped, s.workers[w].job, j);
    SamePlaces(c, moved, s', false, j);
    SamePlaces(c, moved, s', true, j);
    ConservedNumbers(c, s, s', j, 0, 0);
  }

  lemma BeginConserves(c: Config, s: Pool, w: nat, j: Which)
    requires ConservedAt(c, s, j) && w < |s.workers| && s.workers[w].Got? && Runs(c, s.workers[w].job)
    ensures var job := s.workers[w].job;
            ConservedAt(c, Move(s, w, Running(job)).(started := s.started + [job]), j)
  {
    var job := s.workers[w].job;
    var moved := Move(s, w, Running(job));
    var s' := moved.(started := s.started + [job]);
    PlacesAfterMove(c, s, w, Running(job), false, j);
    PlacesAfterMove(c, s, w, Running(job), true, j);
    TimesSnoc(s.started, job, j);
    SamePlaces(c, moved, s', false, j);
    SamePlaces(c, moved, s', true, j);
    ConservedNumbers(c, s, s', j, 0, One(Picks(j, job)));
  }

  /** A worker that keeps its job, or never had one, changes no number. */
  lemma SameJobConserves(c: Config, s: Pool, w: nat, to: Worker, j: Which)
    requires ConservedAt(c, s, j) && w < |s.workers|
    requires JobOf(c, to, false, j) == JobOf(c, s.workers[w], false, j)
    requires JobOf(c, to, true, j) == JobOf(c, s.workers[w], true, j)
    ensures ConservedAt(c, Move(s, w, to), j)
  {
    PlacesAfterMove(c, s, w, to, false, j);
    PlacesAfterMove(c, s, w, to, true, j);
    ConservedNumbers(c, s, Move(s, w, to), j, 0, 0);
  }

  lemma SkipConserves(c: Config, s: Pool, w: nat, j: Which)
    requires ConservedAt(c, s, j) && w < |s.workers| && s.workers[w].Got? && !Runs(c, s.workers[w].job)
    ensures ConservedAt(c, Move(s, w, Sending(s.workers[w].job, ZERO)), j)
  {
    SameJobConserves(c, s, w, Sending(s.workers[w].job, ZERO), j);
  }

  lemma CheckConserves(c: Config, s: Pool, w: nat, j: Which)
    requires ConservedAt(c, s, j) && Enabled(c, s, CheckJob(w))
    ensures ConservedAt(c, Checked(c, s, w, s.workers[w].job), j)
  {
    if s.cancelled {
      DropConserves(c, s, w, j);
    } else if Runs(c, s.workers[w].job) {
      BeginConserves(c, s, w, j);
    } else {
      SkipConserves(c, s, w, j);
    }
  }

  lemma SettleConserves(c: Config, s: Pool, e: Event, j: Which)
    requires e.RunDone? || e.Exit? || e.Resume?
    requires ConservedAt(c, s, j) && Enabled(c, s, e)
    ensures ConservedAt(c, Apply(c, s, e), j)
  {
    match e
    case RunDone(w, probe) => SameJobConserves(c, s, w, Sending(s.workers[w].job, Outcome(probe)), j);
    case Exit(w) => SameJobConserves(c, s, w, Exited, j);
    case Resume(w) => SameJobConserves(c, s, w, Idle, j);
  }

  lemma CollectConserves(c: Config, s: Pool, w: nat, j: Which)
    requires ConservedAt(c, s, j) && Enabled(c, s, Collect(w))
    ensures ConservedAt(c, Apply(c, s, Collect(w)), j)
  {
    var to := if c.pauses then Pausing else Idle;
    HeldAfterMove(c, s.workers, w, to, false, j);
    HeldAfterMove(c, s.workers, w, to, true, j);
    var s' := Apply(c, s, Collect(w));
    assert Places(c, s', false, j) == Places(c, s, false, j);
    assert Places(c, s', true, j) == Places(c, s, true, j);
    ConservedNumbers(c, s, s', j, 0, 0);
  }

  lemma AccountKeepsPlaces(c: Config, s: Pool, ran: bool, j: Which)
    requires s.collector.Adding?
    ensures Places(c, Accounted(s, s.collector.job, s.collector.result), ran, j) == Places(c, s, ran, j)
  {
    SummedSnoc(c, s.added, Job(s.collector.job, s.collector.result), ran, j);
  }

  lemma AccountConserves(c: Config, s: Pool, j: Which)
    requires ConservedAt(c, s, j) && s.collector.Adding?
    ensures ConservedAt(c, Accounted(s, s.collector.job, s.collector.result), j)
  {
    AccountKeepsPlaces(c, s, false, j);
    AccountKeepsPlaces(c, s, true, j);
  }

  lemma StepConserves(c: Config, s: Pool, e: Event, j: Which)
    requires ConservedAt(c, s, j) && Enabled(c, s, e)
    ensures ConservedAt(c, Apply(c, s, e), j)
  {
    if e.HandOff? {
      HandOffConserves(c, s, e.w, j);
    } else if e.CheckJob? {
      CheckConserves(c, s, e.w, j);
    } else if e.RunDone? || e.Exit? || e.Resume? {
      SettleConserves(c, s, e, j);
    } else if e.Collect? {
      CollectConserves(c, s, e.w, j);
    } else if e.Account? {
      AccountConserves(c, s, j);
    }
  }

  lemma MoveKeepsWorkers(c: Config, s: Pool, s': Pool, w: nat)
    requires w < |s.workers| && |s'.workers| == |s.workers|
    requires s'.workers == s.workers[w := s'.workers[w]] && WorkerOk(c, s', s'.workers[w])
    requires s'.cancelled == s.cancelled && s'.jobsClosed == s.jobsClosed && s'.resultsClosed == s.resultsClosed
    requires forall w :: 0 <= w < |s.workers| ==> WorkerOk(c, s, s.workers[w])
    ensures forall w :: 0 <= w < |s'.workers| ==> WorkerOk(c, s', s'.workers[w])
  {
    forall v | 0 <= v < |s'.workers| ensures WorkerOk(c, s', s'.workers[v]) {
      assert WorkerOk(c, s, s.workers[v]);
    }
  }

  lemma FetchKeepsProtocol(c: Config, s: Pool, e: Event)
    requires e.HandOff? || e.CheckJob? || e.RunDone?
    requires Protocol(c, s) && Enabled(c, s, e)
    ensures Protocol(c, Apply(c, s, e))
  {
    assert WorkerOk(c, s, s.workers[e.w]);
    MoveKeepsWorkers(c, s, Apply(c, s, e), e.w);
  }

  lemma SettleKeepsProtocol(c: Config, s: Pool, e: Event)
    requires e.Exit? || e.Collect? || e.Resume?
    requires Protocol(c, s) && Enabled(c, s, e)
    ensures Protocol(c, Apply(c, s, e))
  {
    assert WorkerOk(c, s, s.workers[e.w]);
    MoveKeepsWorkers(c, s, Apply(c, s, e), e.w);
  }

  lemma StepKeepsProtocol(c: Config, s: Pool, e: Event)
    requires Protocol(c, s) && Enabled(c, s, e)
    ensures Protocol(c, Apply(c, s, e))
  {
    if e.HandOff? || e.CheckJob? || e.RunDone? {
      FetchKeepsProtocol(c, s, e);
    } else if e.Exit? || e.Collect? || e.Resume? {
      SettleKeepsProtocol(c, s, e);
    } else {
      var s' := Apply(c, s, e);
      forall v | 0 <= v < |s'.workers| ensures WorkerOk(c, s', s'.workers[v]) {
        assert WorkerOk(c, s, s.workers[v]);
      }
    }
  }

  lemma GenuineSnoc(c: Config, cancelled: bool, jobs: seq<Job>, job: Job)
    requires AllGenuine(c, cancelled, jobs) && Genuine(c, cancelled, job.job, job.result)
    ensures AllGenuine(c, cancelled, jobs + [job])
  {
  }

  lemma ReportedNext(reports: seq<int>, processed: nat, cancelled: bool)
    requires Reported(reports, processed, cancelled)
    ensures Reported(if cancelled then reports else reports + [processed + 1], processed + 1, cancelled)
  {
  }

  lemma AccountKeepsTally(c: Config, s: Pool)
    requires Tallied(c, s) && s.collector.Adding?
    ensures Tallied(c, Accounted(s, s.collector.job, s.collector.result))
  {
    var job := Job(s.collector.job, s.collector.result);
    GenuineSnoc(c, s.cancelled, s.added, job);
    TotalSnoc(s.added, job);
    ReportedNext(s.reports, s.processed, s.cancelled);
  }

  lemma CancelKeepsTally(c: Config, s: Pool)
    requires Tallied(c, s)
    ensures Tallied(c, s.(cancelled := true))
  {
    forall i | 0 <= i < |s.added| ensures Genuine(c, true, s.added[i].job, s.added[i].result) {
      assert Genuine(c, s.cancelled, s.added[i].job, s.added[i].result);
    }
  }

  lemma OtherKeepsTally(c: Config, s: Pool, s': Pool)
    requires Tallied(c, s) && s'.cancelled == s.cancelled
    requires s'.collector.Adding? ==> Genuine(c, s.cancelled, s'.collector.job, s'.collector.result)
    requires (s'.added, s'.summary, s'.processed, s'.reports) == (s.added, s.summary, s.processed, s.reports)
    ensures Tallied(c, s')
  {
  }

  lemma StepKeepsTally(c: Config, s: Pool, e: Event)
    requires Tallied(c, s) && Protocol(c, s) && Enabled(c, s, e)
    ensures Tallied(c, Apply(c, s, e))
  {
    if e.Account? {
      AccountKeepsTally(c, s);
    } else if e.Cancel? {
      CancelKeepsTally(c, s);
    } else {
      if e.Collect? { assert WorkerOk(c, s, s.workers[e.w]); }
      OtherKeepsTally(c, s, Apply(c, s, e));
    }
  }

  lemma StepKeepsInv(c: Config, s: Pool, e: Event)
    requires Inv(c, s) && Enabled(c, s, e)
    ensures Inv(c, Apply(c, s, e))
  {
    forall j { StepConserves(c, s, e, j); }
    StepKeepsProtocol(c, s, e);
    StepKeepsTally(c, s, e);
  }

  // ---------------------------------------------------------------------------
  // All interleavings
  // ---------------------------------------------------------------------------

  ghost predicate IsRun(c: Config, s: Pool, events: seq<Event>)
    decreases |events|
  {
    events == [] || (Enabled(c, s, events[0]) && IsRun(c, Apply(c, s, events[0]), events[1..]))
  }

  ghost function After(c: Config, s: Pool, events: seq<Event>): Pool
    requires IsRun(c, s, events)
    decreases |events|
  {
    if events == [] then s else After(c, Apply(c, s, events[0]), events[1..])
  }

  lemma {:induction false} RunKeepsInv(c: Config, s: Pool, events: seq<Event>)
    requires Inv(c, s) && IsRun(c, s, events)
    ensures Inv(c, After(c, s, events))
    decreases |events|
  {
    if events != [] {
      StepKeepsInv(c, s, events[0]);
      RunKeepsInv(c, Apply(c, s, events[0]), events[1..]);
    }
  }

  lemma ReachableInv(c: Config, events: seq<Event>)
    requires c.Valid() && IsRun(c, Start(c), events)
    ensures Inv(c, After(c, Start(c), events))
  {
    StartInv(c);
    RunKeepsInv(c, Start(c), events);
  }

  /** Whatever happens next, the channel it sends on or closes is still open. */
  lemma NothingTouchesAClosedChannel(c: Config, events: seq<Event>, e: Event)
    requires c.Valid() && IsRun(c, Start(c), events)
    requires Enabled(c, After(c, Start(c), events), e)
    ensures var s := After(c, Start(c), events);
            && (e.HandOff? || e.StopFeeding? ==> !s.jobsClosed)
            && (e.Collect? || e.CloseResults? ==> !s.resultsClosed)
            && (s.resultsClosed ==> forall w :: 0 <= w < |s.workers| ==> !s.workers[w].Sending?)
  {
    ReachableInv(c, events);
    var s := After(c, Start(c), events);
    forall w | 0 <= w < |s.workers| ensures WorkerOk(c, s, s.workers[w]) {
    }
  }

  /** Every goroutine has returned. */
  ghost predicate Terminal(s: Pool) {
    s.collector.Finished? && s.jobsClosed && s.resultsClosed && AllExited(s)
  }

  /** An event of the program itself, the caller not cancelling. */
  lemma WorkerCanMove(c: Config, s: Pool, w: nat) returns (e: Event)
    requires Protocol(c, s) && w < |s.workers| && !s.workers[w].Exited? && s.collector.Waiting?
    ensures !e.Cancel? && Enabled(c, s, e)
  {
    match s.workers[w]
    case Got(_) => e := CheckJob(w);
    case Running(_) => e := RunDone(w, Probe(false, true, false, false, false, false, false, false, false, _ => false));
    case Sending(_, _) => e := Collect(w);
    case Pausing => e := Resume(w);
    case Idle =>
      if s.cancelled || s.jobsClosed {
        e := Exit(w);
      } else if s.next < c.Total() {
        e := HandOff(w);
      } else {
        e := StopFeeding;
      }
  }

  lemma StepExists(c: Config, s: Pool) returns (e: Event)
    requires c.Valid() && Inv(c, s) && !Terminal(s)
    ensures !e.Cancel? && Enabled(c, s, e)
  {
    if s.collector.Adding? {
      e := Account;
    } else if s.resultsClosed {
      forall w | 0 <= w < |s.workers| ensures WorkerOk(c, s, s.workers[w]) {
      }
      assert s.workers[0].Exited?;
      e := if s.collector.Waiting? then FinishCollecting else StopFeeding;
    } else if w :| 0 <= w < |s.workers| && !s.workers[w].Exited? {
      e := WorkerCanMove(c, s, w);
    } else {
      e := CloseResults;
    }
  }

  /** No interleaving deadlocks: as long as some goroutine has not returned, the program
      can take a step without any help from outside. */
  lemma NoDeadlock(c: Config, events: seq<Event>)
    requires c.Valid() && IsRun(c, Start(c), events)
    requires !Terminal(After(c, Start(c), events))
    ensures exists e: Event :: !e.Cancel? && Enabled(c, After(c, Start(c), events), e)
  {
    ReachableInv(c, events);
    var e := StepExists(c, After(c, Start(c), events));
  }

  // ---------------------------------------------------------------------------
  // Termination
  // ---------------------------------------------------------------------------

  function Weight(w: Worker): nat {
    match w
    case Exited => 0
    case Idle => 1
    case Pausing => 2
    case Sending(_, _) => 4
    case Running(_) => 5
    case Got(_) => 6
  }

  function Weights(ws: seq<Worker>): nat {
    if ws == [] then 0 else Weight(ws[0]) + Weights(ws[1..])
  }

  lemma {:induction false} WeightsAfterMove(ws: seq<Worker>, w: nat, to: Worker)
    requires w < |ws|
    ensures Weights(ws[w := to]) == Weights(ws) - Weight(ws[w]) + Weight(to)
  {
    if w == 0 {
      assert ws[0 := to][1..] == ws[1..];
    } else {
      WeightsAfterMove(ws[1..], w - 1, to);
      assert ws[w := to][1..] == ws[1..][w - 1 := to];
    }
  }

  /** How many more events there can be, at most. */
  ghost function Left(c: Config, s: Pool): int {
    6 * (c.Total() - s.next) + Weights(s.workers) +
    One(s.feeding) + One(s.closing) + One(!s.cancelled) +
    (match s.collector case Waiting => 1 case Adding(_, _) => 2 case Finished => 0)
  }

  lemma CheckUsesUp(c: Config, s: Pool, w: nat)
    requires Enabled(c, s, CheckJob(w))
    ensures Left(c, Apply(c, s, CheckJob(w))) < Left(c, s)
  {
    var job := s.workers[w].job;
    var s' := Checked(c, s, w, job);
    var to := if s.cancelled then Exited else if Runs(c, job) then Running(job) else Sending(job, ZERO);
    assert s'.workers == s.workers[w := to];
    WeightsAfterMove(s.workers, w, to);
  }

  lemma WorkerUsesUp(c: Config, s: Pool, e: Event)
    requires e.RunDone? || e.Exit? || e.Resume?
    requires Enabled(c, s, e)
    ensures Left(c, Apply(c, s, e)) < Left(c, s)
  {
    WeightsAfterMove(s.workers, e.w, Apply(c, s, e).workers[e.w]);
  }

  lemma MeetingUsesUp(c: Config, s: Pool, e: Event)
    requires e.HandOff? || e.Collect?
    requires Enabled(c, s, e)
    ensures Left(c, Apply(c, s, e)) < Left(c, s)
  {
    WeightsAfterMove(s.workers, e.w, Apply(c, s, e).workers[e.w]);
  }

  lemma StepUsesUp(c: Config, s: Pool, e: Event)
    requires Enabled(c, s, e)
    ensures Left(c, Apply(c, s, e)) < Left(c, s)
  {
    if e.CheckJob? {
      CheckUsesUp(c, s, e.w);
    } else if e.RunDone? || e.Exit? || e.Resume? {
      WorkerUsesUp(c, s, e);
    } else if e.HandOff? || e.Collect? {
      MeetingUsesUp(c, s, e);
    }
  }

  lemma {:induction false} RunIsBounded(c: Config, s: Pool, events: seq<Event>)
    requires Inv(c, s) && IsRun(c, s, events)
    ensures |events| + Left(c, After(c, s, events)) <= Left(c, s)
    ensures Left(c, After(c, s, events)) >= 0
    decreases |events|
  {
    if events != [] {
      StepUsesUp(c, s, events[0]);
      StepKeepsInv(c, s, events[0]);
      RunIsBounded(c, Apply(c, s, events[0]), events[1..]);
    }
  }

  lemma {:induction false} WeightsIdle(ws: seq<Worker>)
    requires forall w :: 0 <= w < |ws| ==> ws[w] == Idle
    ensures Weights(ws) == |ws|
  {
    if ws != [] {
      WeightsIdle(ws[1..]);
    }
  }

  /** Every interleaving ends, after a number of events linear in the work. */
  lemma EveryRunTerminates(c: Config, events: seq<Event>)
    requires c.Valid() && IsRun(c, Start(c), events)
    ensures |events| <= 6 * c.Total() + c.workers + 4
  {
    StartInv(c);
    RunIsBounded(c, Start(c), events);
    WeightsIdle(Start(c).workers);
  }

  // ---------------------------------------------------------------------------
  // What the caller gets
  // ---------------------------------------------------------------------------

  lemma {:induction false} TotalBalanced(c: Config, cancelled: bool, jobs: seq<Job>)
    requires AllGenuine(c, cancelled, jobs)
    ensures Balanced(Total(jobs))
  {
    if jobs != [] {
      var n := |jobs| - 1;
      TotalBalanced(c, cancelled, jobs[..n]);
      assert Genuine(c, cancelled, jobs[n].job, jobs[n].result);
    }
  }

  function Tests(jobs: seq<Job>): nat {
    if jobs == [] then 0 else Tests(jobs[..|jobs| - 1]) + jobs[|jobs| - 1].result.tested
  }

  lemma {:induction false} TotalTests(jobs: seq<Job>)
    ensures Total(jobs).tested == Tests(jobs)
  {
    if jobs != [] { TotalTests(jobs[..|jobs| - 1]); }
  }

  lemma OneTest(c: Config, job: Job)
    requires Genuine(c, false, job.job, job.result)
    ensures job.result.tested == Mark(c, job.job, true, Any)
  {
  }

  lemma {:induction false} TestsSummed(c: Config, jobs: seq<Job>)
    requires AllGenuine(c, false, jobs)
    ensures Tests(jobs) == Summed(c, jobs, true, Any)
  {
    if jobs != [] {
      TestsSummed(c, jobs[..|jobs| - 1]);
      OneTest(c, jobs[|jobs| - 1]);
    }
  }

  lemma NothingHeld(c: Config, s: Pool, ran: bool, j: Which)
    requires AllExited(s) && s.collector.Finished?
    ensures Places(c, s, ran, j) == Summed(c, s.added, ran, j)
  {
    HeldNothing(c, s.workers, ran, j);
  }

  lemma {:induction false} SummedAny(c: Config, jobs: seq<Job>)
    ensures Summed(c, jobs, false, Any) == |jobs|
  {
    if jobs != [] {
      SummedAny(c, jobs[..|jobs| - 1]);
    }
  }

  lemma CountedOnce(c: Config, added: seq<Job>, started: seq<nat>, j: nat)
    requires Summed(c, added, false, Only(j)) == Issued(c.Total(), Only(j))
    requires Summed(c, added, true, Only(j)) == Times(started, Only(j))
    ensures Summed(c, added, false, Only(j)) == (if j < c.Total() then 1 else 0)
    ensures Times(started, Only(j)) == (if Runs(c, j) then 1 else 0)
  {
    SummedRan(c, added, j);
  }

  lemma FinishedHoldsNothing(c: Config, s: Pool, j: Which)
    requires Inv(c, s) && s.collector.Finished?
    ensures Summed(c, s.added, false, j) + Times(s.dropped, j) == Issued(s.next, j)
    ensures Summed(c, s.added, true, j) == Times(s.started, j)
    ensures j.Only? ==> Summed(c, s.added, false, j) <= 1
    ensures j.Only? && s.next == c.Total() && s.dropped == [] ==>
              && Summed(c, s.added, false, j) == (if j.job < c.Total() then 1 else 0)
              && Times(s.started, j) == (if Runs(c, j.job) then 1 else 0)
  {
    forall w | 0 <= w < |s.workers| ensures s.workers[w].Exited? {
      assert WorkerOk(c, s, s.workers[w]);
    }
    assert ConservedAt(c, s, j);
    NothingHeld(c, s, false, j);
    NothingHeld(c, s, true, j);
    if j.Only? && s.next == c.Total() && s.dropped == [] {
      CountedOnce(c, s.added, s.started, j.job);
    }
  }

  lemma FinishedUncancelled(c: Config, s: Pool)
    requires c.Valid() && Inv(c, s) && s.collector.Finished? && !s.cancelled
    ensures s.next == c.Total() && s.processed == c.Total() && s.dropped == []
    ensures Reported(s.reports, c.Total(), false)
  {
    assert s.next == c.Total() by {
      assert WorkerOk(c, s, s.workers[0]);
    }
    FinishedHoldsNothing(c, s, Any);
    SummedAny(c, s.added);
  }

  lemma SummaryBalanced(c: Config, s: Pool)
    requires Tallied(c, s)
    ensures s.summary == Total(s.added) && Balanced(s.summary)
    ensures !s.cancelled ==> s.summary.tested == Summed(c, s.added, true, Any)
  {
    TotalBalanced(c, s.cancelled, s.added);
    TotalTests(s.added);
    if !s.cancelled { TestsSummed(c, s.added); }
  }

  /** When the collector returns, every test that was started is in the sum exactly once,
      no job is in it twice, and the counters balance, cancelled or not. */
  lemma EveryStartedTestIsCountedOnce(c: Config, events: seq<Event>, j: nat)
    requires c.Valid() && IsRun(c, Start(c), events)
    requires After(c, Start(c), events).collector.Finished?
    ensures var s := After(c, Start(c), events);
            && s.summary == Total(s.added) && Balanced(s.summary)
            && Summed(c, s.added, false, Only(j)) <= 1
            && Summed(c, s.added, true, Only(j)) == Times(s.started, Only(j))
  {
    ReachableInv(c, events);
    FinishedHoldsNothing(c, After(c, Start(c), events), Only(j));
    SummaryBalanced(c, After(c, Start(c), events));
  }

  /** How many of the first `n` channels are to be tested. */
  function Runnable(c: Config, n: nat): nat {
    if n == 0 then 0 else Runnable(c, n - 1) + One(Runs(c, n - 1))
  }

  /** The occurrences of all jobs below `n`. */
  function TimesBelow(jobs: seq<nat>, n: nat): nat {
    if n == 0 then 0 else TimesBelow(jobs, n - 1) + Times(jobs, Only(n - 1))
  }

  lemma {:induction false} TimesBelowSnoc(jobs: seq<nat>, job: nat, n: nat)
    ensures TimesBelow(jobs + [job], n) == TimesBelow(jobs, n) + One(job < n)
  {
    if n > 0 {
      TimesBelowSnoc(jobs, job, n - 1);
      TimesSnoc(jobs, job, Only(n - 1));
    }
  }

  lemma {:induction false} TimesAny(jobs: seq<nat>, n: nat)
    requires forall i :: 0 <= i < |jobs| ==> jobs[i] < n
    ensures Times(jobs, Any) == TimesBelow(jobs, n)
  {
    if jobs == [] {
      NoTimes(n);
    } else {
      var m := |jobs| - 1;
      TimesAny(jobs[..m], n);
      TimesBelowSnoc(jobs[..m], jobs[m], n);
      assert jobs == jobs[..m] + [jobs[m]];
    }
  }

  lemma {:induction false} NoTimes(n: nat)
    ensures TimesBelow([], n) == 0
  {
    if n > 0 { NoTimes(n - 1); }
  }

  lemma {:induction false} OncePerRunnable(c: Config, jobs: seq<nat>, n: nat)
    requires forall j {:trigger Only(j)} :: 0 <= j < n ==> Times(jobs, Only(j)) == One(Runs(c, j))
    ensures TimesBelow(jobs, n) == Runnable(c, n)
  {
    if n > 0 { OncePerRunnable(c, jobs, n - 1); }
  }

  lemma {:induction false} OccursOnce(jobs: seq<nat>, i: nat)
    requires i < |jobs|
    ensures Times(jobs, Only(jobs[i])) > 0
  {
    if i < |jobs| - 1 { OccursOnce(jobs[..|jobs| - 1], i); }
  }

  /** Without cancellation the number of tests is the number of channels to be tested. */
  lemma FinishedTestsAll(c: Config, s: Pool)
    requires Inv(c, s) && s.collector.Finished? && !s.cancelled && s.next == c.Total() && s.dropped == []
    ensures s.summary.tested == Runnable(c, c.Total())
  {
    SummaryBalanced(c, s);
    FinishedHoldsNothing(c, s, Any);
    forall j {:trigger Only(j)} | 0 <= j ensures Times(s.started, Only(j)) == One(Runs(c, j)) {
      FinishedHoldsNothing(c, s, Only(j));
    }
    forall i | 0 <= i < |s.started| ensures s.started[i] < c.Total() {
      OccursOnce(s.started, i);
      FinishedHoldsNothing(c, s, Only(s.started[i]));
    }
    TimesAny(s.started, c.Total());
    OncePerRunnable(c, s.started, c.Total());
  }

  /** Without cancellation every channel is handed out and counted exactly once, every one
      that is to be tested is tested, and progress is reported as 0, 1, ..., total. */
  lemma UncancelledRunIsComplete(c: Config, events: seq<Event>, j: nat)
    requires c.Valid() && IsRun(c, Start(c), events)
    requires After(c, Start(c), events).collector.Finished?
    requires !After(c, Start(c), events).cancelled
    ensures var s := After(c, Start(c), events);
            && s.next == c.Total() && s.processed == c.Total()
            && Reported(s.reports, c.Total(), false)
            && Summed(c, s.added, false, Only(j)) == (if j < c.Total() then 1 else 0)
            && Times(s.started, Only(j)) == (if Runs(c, j) then 1 else 0)
            && s.summary.tested == Runnable(c, c.Total())
  {
    ReachableInv(c, events);
    FinishedUncancelled(c, After(c, Start(c), events));
    FinishedHoldsNothing(c, After(c, Start(c), events), Only(j));
    FinishedTestsAll(c, After(c, Start(c), events));
  }

  lemma {:induction false} SummedRan(c: Config, jobs: seq<Job>, j: nat)
    ensures Summed(c, jobs, true, Only(j)) == if Runs(c, j) then Summed(c, jobs, false, Only(j)) else 0
  {
    if jobs != [] {
      SummedRan(c, jobs[..|jobs| - 1], j);
    }
  }
}
