/** Every run of the queue with its worker, crashes included. */
module QueueRuns {
  import opened Options
  import opened NotificationQueue

  /** The job a worker holds: its snapshot from the claim, and the send's result. */
  datatype Work = Work(id: JobId, attempts: nat, maxAttempts: int, result: Option<bool>)

  /** The queue with its worker. `delivered` and `reclaims` are history: the jobs a
      send succeeded for, and the lease reclaims of each job since it was last reset. */
  datatype System = System(jobs: Jobs, lastId: JobId, worker: Option<Work>,
                           delivered: set<JobId>, reclaims: map<JobId, nat>)

  datatype Step =
    | Enqueue(message: string, maxAttempts: int, nextAttemptAt: Option<int>, now: int)
    | Claim(id: JobId, now: int, lease: int)
    | Send(ok: bool)
    | Finish(doneAt: int, retryAt: int)
    | Crash
    | Retry(id: JobId, now: int)

  ghost predicate Enabled(s: System, step: Step) {
    match step
    case Claim(id, now, _) => s.worker.None? && LeastReady(s.jobs, now, id)
    case Send(_) => s.worker.Some? && s.worker.value.result.None?
    case Finish(_, _) => s.worker.Some? && s.worker.value.result.Some? && s.worker.value.id in s.jobs
    case Retry(id, _) => id in s.jobs
    case _ => true
  }

  ghost function Apply(s: System, step: Step): System
    requires Enabled(s, step)
  {
    match step
    case Enqueue(message, maxAttempts, next, now) =>
      var id := s.lastId + 1;
      s.(jobs := s.jobs[id := Fresh(message, maxAttempts, next, now)], lastId := id, reclaims := s.reclaims[id := 0])
    case Claim(id, now, lease) =>
      var job := Leased(s.jobs[id], now, lease);
      s.(jobs := s.jobs[id := job],
         worker := Some(Work(id, job.attempts, job.maxAttempts, None)),
         reclaims := s.reclaims[id := Reclaims(s, id) + if s.jobs[id].status == Processing then 1 else 0])
    case Send(ok) =>
      s.(worker := Some(s.worker.value.(result := Some(ok))),
         delivered := if ok then s.delivered + {s.worker.value.id} else s.delivered)
    case Finish(doneAt, retryAt) =>
      var w := s.worker.value;
      var job := s.jobs[w.id];
      s.(worker := None,
         jobs := s.jobs[w.id :=
           if w.result == Some(true) then Completed(job, doneAt)
           else Failed(job, retryAt, "send failed", w.attempts >= w.maxAttempts)])
    case Crash => s.(worker := None)
    case Retry(id, now) =>
      s.(jobs := s.jobs[id := Retried(s.jobs[id], now)],
         reclaims := if s.jobs[id].status == DeadLetter then s.reclaims[id := 0] else s.reclaims)
  }

  function Reclaims(s: System, id: JobId): nat {
    if id in s.reclaims then s.reclaims[id] else 0
  }

  ghost predicate Initial(s: System) {
    s.jobs == map[] && s.lastId == 0 && s.worker == None && s.delivered == {} && s.reclaims == map[]
  }

  ghost predicate Runs(s: System, steps: seq<Step>)
    decreases |steps|, 0
  {
    steps != [] ==>
      && Runs(s, steps[..|steps| - 1])
      && Enabled(After(s, steps[..|steps| - 1]), steps[|steps| - 1])
  }

  ghost function After(s: System, steps: seq<Step>): System
    requires Runs(s, steps)
    decreases |steps|, 1
  {
    if steps == [] then s else Apply(After(s, steps[..|steps| - 1]), steps[|steps| - 1])
  }

  /** What every reachable job satisfies. */
  predicate JobOk(j: Job, reclaims: nat, delivered: bool) {
    && j.maxAttempts >= 1
    && j.attempts <= j.maxAttempts + reclaims
    && match j.status
       case Pending => j.attempts < j.maxAttempts && j.leaseUntil == None
       case Processing => j.attempts >= 1 && j.leaseUntil.Some?
       case Sent => delivered && j.sentAt.Some?
       case DeadLetter => j.attempts >= j.maxAttempts
  }

  ghost predicate Invariant(s: System) {
    && (forall id | id in s.jobs :: 1 <= id <= s.lastId && JobOk(s.jobs[id], Reclaims(s, id), id in s.delivered))
    && (s.worker.Some? ==>
          var w := s.worker.value;
          && w.id in s.jobs && s.jobs[w.id].status == Processing
          && s.jobs[w.id].attempts == w.attempts && s.jobs[w.id].maxAttempts == w.maxAttempts
          && (w.result == Some(true) ==> w.id in s.delivered))
  }

  lemma InvariantKept(s: System, step: Step)
    requires Invariant(s) && Enabled(s, step)
    ensures Invariant(Apply(s, step))
  {
  }

  /** In every reachable state a pending job has attempts left, a dead letter has
      none, a sent one was really sent, and attempts exceed the limit by no more
      than the lease reclaims. */
  lemma {:induction false} InvariantHolds(s: System, steps: seq<Step>)
    requires Initial(s) && Runs(s, steps)
    ensures Invariant(After(s, steps))
    decreases |steps|
  {
    if steps != [] {
      InvariantHolds(s, steps[..|steps| - 1]);
      InvariantKept(After(s, steps[..|steps| - 1]), steps[|steps| - 1]);
    }
  }

  /** No job disappears or changes its message, and a sent job stays exactly as it is. */
  ghost predicate Preserves(s: System, s': System) {
    forall id | id in s.jobs ::
      && id in s'.jobs && s'.jobs[id].message == s.jobs[id].message && s'.jobs[id].maxAttempts == s.jobs[id].maxAttempts
      && (s.jobs[id].status == Sent ==> s'.jobs[id] == s.jobs[id])
  }

  lemma StepPreserves(s: System, step: Step)
    requires Invariant(s) && Enabled(s, step)
    ensures Preserves(s, Apply(s, step))
  {
  }

  lemma PreservesTransitive(a: System, b: System, c: System)
    requires Preserves(a, b) && Preserves(b, c)
    ensures Preserves(a, c)
  {
  }

  lemma {:induction false} NothingIsLost(s: System, early: seq<Step>, late: seq<Step>)
    requires Initial(s) && Runs(s, early + late)
    ensures Runs(s, early) && Preserves(After(s, early), After(s, early + late))
    decreases |late|
  {
    if late == [] {
      assert early + late == early;
    } else {
      var n := |late| - 1;
      assert (early + late)[..|early + late| - 1] == early + late[..n];
      NothingIsLost(s, early, late[..n]);
      var at := After(s, early + late[..n]);
      InvariantHolds(s, early + late[..n]);
      assert (early + late)[|early + late| - 1] == late[n];
      StepPreserves(at, late[n]);
      PreservesTransitive(After(s, early), at, Apply(at, late[n]));
    }
  }

  // Termination of crash-free delivery.

  predicate Terminal(j: Job) { j.status == Sent || j.status == DeadLetter }

  /** An upper bound on the deliveries a job still needs. */
  function Need(j: Job): nat {
    match j.status
    case Pending => if j.attempts < j.maxAttempts then j.maxAttempts - j.attempts else 1
    case Processing => (if j.attempts < j.maxAttempts then j.maxAttempts - j.attempts else 0) + 1
    case _ => 0
  }

  function TotalNeed(jobs: Jobs, n: nat): nat {
    if n == 0 then 0 else TotalNeed(jobs, n - 1) + if n in jobs then Need(jobs[n]) else 0
  }

  /** Every crash-free delivery brings its job strictly closer to its end. */
  lemma DeliveryDecreasesNeed(j: Job, d: Delivery)
    requires !Terminal(j)
    ensures Need(DeliveredJob(j, d)) < Need(j)
  {
  }

  lemma {:induction false} TotalNeedDecreases(jobs: Jobs, id: JobId, d: Delivery, n: nat)
    requires id in jobs && !Terminal(jobs[id])
    ensures TotalNeed(Delivered(jobs, id, d), n)
         == TotalNeed(jobs, n) - if 1 <= id <= n then Need(jobs[id]) - Need(DeliveredJob(jobs[id], d)) else 0
  {
    if n > 0 {
      TotalNeedDecreases(jobs, id, d, n - 1);
    }
  }

  lemma {:induction false} NoNeedNoWork(jobs: Jobs, n: nat, id: JobId)
    requires TotalNeed(jobs, n) == 0 && 1 <= id <= n && id in jobs
    ensures Terminal(jobs[id])
  {
    if id < n {
      NoNeedNoWork(jobs, n - 1, id);
    }
  }

  /** A worker's poll at any time: idle if nothing is ready, else the least ready job gets
      one delivery. */
  ghost predicate Poll(was: Jobs, jobs: Jobs, id: JobId, d: Delivery) {
    if NoneReady(was, d.now) then jobs == was else LeastReady(was, d.now, id) && jobs == Delivered(was, id, d)
  }

  /** A crash-free run of polls, at whatever times. */
  ghost predicate Polls(jobs: seq<Jobs>, ids: seq<JobId>, deliveries: seq<Delivery>) {
    && |jobs| == |deliveries| + 1 && |ids| == |deliveries|
    && forall i | 0 <= i < |deliveries| :: Poll(jobs[i], jobs[i + 1], ids[i], deliveries[i])
  }

  /** Late enough for every unfinished job: its retry time or its lease has passed. */
  ghost predicate Late(jobs: Jobs, now: int) {
    forall id | id in jobs && !Terminal(jobs[id]) :: Ready(jobs[id], now)
  }

  ghost predicate AllTerminal(jobs: Jobs) {
    forall id | id in jobs :: Terminal(jobs[id])
  }

  /** How many of the first i polls found work. */
  ghost function Worked(jobs: seq<Jobs>, deliveries: seq<Delivery>, i: nat): nat
    requires i <= |jobs| && i <= |deliveries|
  {
    if i == 0 then 0
    else Worked(jobs, deliveries, i - 1) + if NoneReady(jobs[i - 1], deliveries[i - 1].now) then 0 else 1
  }

  /** How many of the first i polls came late. */
  ghost function LatePolls(jobs: seq<Jobs>, deliveries: seq<Delivery>, i: nat): nat
    requires i <= |jobs| && i <= |deliveries|
  {
    if i == 0 then 0
    else LatePolls(jobs, deliveries, i - 1) + if Late(jobs[i - 1], deliveries[i - 1].now) then 1 else 0
  }

  /** Whatever the times of the polls, every one that finds work uses up some of the need
      there was at the start. */
  lemma {:induction false} WorkIsBounded(jobs: seq<Jobs>, ids: seq<JobId>, deliveries: seq<Delivery>, n: nat, i: nat)
    requires Polls(jobs, ids, deliveries) && i <= |deliveries|
    requires forall id | id in jobs[0] :: 1 <= id <= n
    ensures jobs[i].Keys == jobs[0].Keys
    ensures TotalNeed(jobs[i], n) + Worked(jobs, deliveries, i) <= TotalNeed(jobs[0], n)
  {
    if i > 0 {
      WorkIsBounded(jobs, ids, deliveries, n, i - 1);
      var was, id, d := jobs[i - 1], ids[i - 1], deliveries[i - 1];
      assert Poll(was, jobs[i - 1 + 1], id, d);
      if !NoneReady(was, d.now) {
        TotalNeedDecreases(was, id, d, n);
        DeliveryDecreasesNeed(was[id], d);
      }
    }
  }

  /** Poll k delivers this job. */
  ghost predicate WorksOn(jobs: seq<Jobs>, ids: seq<JobId>, deliveries: seq<Delivery>, k: nat, id: JobId)
    requires Polls(jobs, ids, deliveries) && k < |deliveries|
  {
    !NoneReady(jobs[k], deliveries[k].now) && ids[k] == id
  }

  lemma {:induction false} UntouchedBetween(jobs: seq<Jobs>, ids: seq<JobId>, deliveries: seq<Delivery>, id: JobId,
                                            i: nat, j: nat)
    requires Polls(jobs, ids, deliveries) && i <= j <= |deliveries| && id in jobs[i]
    requires forall k | i <= k < j :: !WorksOn(jobs, ids, deliveries, k, id)
    ensures id in jobs[j] && jobs[j][id] == jobs[i][id]
  {
    if i < j {
      UntouchedBetween(jobs, ids, deliveries, id, i, j - 1);
      assert !WorksOn(jobs, ids, deliveries, j - 1, id);
      assert Poll(jobs[j - 1], jobs[j - 1 + 1], ids[j - 1], deliveries[j - 1]);
    }
  }

  /** In every run of polls the next delivery of a job, if there is one, comes after a
      failed one with attempts left, and not before its retry time. */
  lemma {:induction false} NoEarlyRetry(jobs: seq<Jobs>, ids: seq<JobId>, deliveries: seq<Delivery>, id: JobId,
                                        i: nat, j: nat)
    requires Polls(jobs, ids, deliveries) && i < j < |deliveries|
    requires WorksOn(jobs, ids, deliveries, i, id) && WorksOn(jobs, ids, deliveries, j, id)
    requires forall k | i < k < j :: !WorksOn(jobs, ids, deliveries, k, id)
    ensures !deliveries[i].sent && deliveries[j].now >= deliveries[i].retryAt
    ensures id in jobs[i] && jobs[i][id].attempts + 1 < jobs[i][id].maxAttempts
  {
    assert Poll(jobs[i], jobs[i + 1], id, deliveries[i]) && Poll(jobs[j], jobs[j + 1], id, deliveries[j]);
    UntouchedBetween(jobs, ids, deliveries, id, i + 1, j);
    DeliveryDecidesReadiness(jobs[i][id], deliveries[i], deliveries[j].now);
  }

  /** An idle poll at a late time means that every job is sent or dead-lettered. */
  lemma IdleWhenLateMeansDone(jobs: Jobs, now: int)
    requires NoneReady(jobs, now) && Late(jobs, now)
    ensures AllTerminal(jobs)
  {
  }

  /** Once they are, no poll finds work again. */
  lemma DoneStaysDone(was: Jobs, jobs: Jobs, id: JobId, d: Delivery)
    requires AllTerminal(was) && Poll(was, jobs, id, d)
    ensures NoneReady(was, d.now) && jobs == was
  {
  }

  lemma {:induction false} LatePollsWork(jobs: seq<Jobs>, ids: seq<JobId>, deliveries: seq<Delivery>, i: nat)
    requires Polls(jobs, ids, deliveries) && i <= |deliveries|
    ensures AllTerminal(jobs[i]) || LatePolls(jobs, deliveries, i) <= Worked(jobs, deliveries, i)
  {
    if i > 0 {
      LatePollsWork(jobs, ids, deliveries, i - 1);
      var was, d := jobs[i - 1], deliveries[i - 1];
      assert Poll(was, jobs[i - 1 + 1], ids[i - 1], d);
      if AllTerminal(was) {
        DoneStaysDone(was, jobs[i], ids[i - 1], d);
      } else if NoneReady(was, d.now) && Late(was, d.now) {
        IdleWhenLateMeansDone(was, d.now);
      }
    }
  }

  /** In every crash-free run of polls, at whatever times, as soon as as many of them came
      late as the jobs needed deliveries at the start, every job is sent or dead-lettered. */
  lemma DrainTerminates(jobs: seq<Jobs>, ids: seq<JobId>, deliveries: seq<Delivery>, n: nat)
    requires Polls(jobs, ids, deliveries)
    requires forall id | id in jobs[0] :: 1 <= id <= n
    requires LatePolls(jobs, deliveries, |deliveries|) >= TotalNeed(jobs[0], n)
    ensures AllTerminal(jobs[|deliveries|])
  {
    var last := |deliveries|;
    LatePollsWork(jobs, ids, deliveries, last);
    WorkIsBounded(jobs, ids, deliveries, n, last);
    if !AllTerminal(jobs[last]) {
      forall id | id in jobs[last] ensures Terminal(jobs[last][id]) {
        NoNeedNoWork(jobs[last], n, id);
      }
    }
  }

  /** A claim, a send and a finish with no crash between them is one delivery. */
  lemma UninterruptedWorkIsADelivery(s: System, id: JobId, d: Delivery)
    requires Invariant(s) && Enabled(s, Claim(id, d.now, d.lease))
    ensures var claimed := Apply(s, Claim(id, d.now, d.lease));
            var sent := Apply(claimed, Send(d.sent));
            var done := Apply(sent, Finish(d.doneAt, d.retryAt));
            done.jobs == Delivered(s.jobs, id, d) && done.worker == None
  {
  }
}
