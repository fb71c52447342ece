/** The durable notification queue: leases, retries and dead letters, and the
    single worker that drives it and may crash at any point. */
module NotificationQueue {
  import opened Options

  type JobId = nat

  datatype JobStatus = Pending | Processing | Sent | DeadLetter

  datatype Job = Job(message: string, status: JobStatus, attempts: nat, maxAttempts: int,
                     nextAttemptAt: int, leaseUntil: Option<int>, sentAt: Option<int>, lastError: string)

  type Jobs = map<JobId, Job>

  const DEFAULT_MAX_ATTEMPTS := 6

  /** The row EnqueueNotification inserts. */
  function Fresh(message: string, maxAttempts: int, nextAttemptAt: Option<int>, now: int): Job {
    Job(message, Pending, 0, if maxAttempts <= 0 then DEFAULT_MAX_ATTEMPTS else maxAttempts,
        if nextAttemptAt.Some? then nextAttemptAt.value else now, None, None, "")
  }

  /** The WHERE of ClaimNotification. */
  predicate Ready(j: Job, now: int) {
    || (j.status == Pending && j.nextAttemptAt <= now)
    || (j.status == Processing && j.leaseUntil.Some? && j.leaseUntil.value <= now)
  }

  function Leased(j: Job, now: int, lease: int): Job {
    j.(status := Processing, attempts := j.attempts + 1, leaseUntil := Some(now + lease))
  }

  function Completed(j: Job, at: int): Job {
    if j.status == Processing then j.(status := Sent, sentAt := Some(at), leaseUntil := None, lastError := "") else j
  }

  function Failed(j: Job, retryAt: int, error: string, dead: bool): Job {
    if j.status == Processing
    then j.(status := if dead then DeadLetter else Pending, nextAttemptAt := retryAt, leaseUntil := None,
            lastError := error)
    else j
  }

  function Retried(j: Job, now: int): Job {
    if j.status == DeadLetter
    then j.(status := Pending, attempts := 0, nextAttemptAt := now, leaseUntil := None, lastError := "")
    else j
  }

  /** ORDER BY next_attempt_at, id. */
  predicate Before(jobs: Jobs, a: JobId, b: JobId)
    requires a in jobs && b in jobs
  {
    jobs[a].nextAttemptAt < jobs[b].nextAttemptAt || (jobs[a].nextAttemptAt == jobs[b].nextAttemptAt && a <= b)
  }

  ghost predicate LeastReady(jobs: Jobs, now: int, id: JobId) {
    && id in jobs && Ready(jobs[id], now)
    && forall other | other in jobs && Ready(jobs[other], now) :: Before(jobs, id, other)
  }

  ghost predicate NoneReady(jobs: Jobs, now: int) {
    forall id | id in jobs :: !Ready(jobs[id], now)
  }

  class Queue {
    var jobs: Jobs
    var lastId: JobId

    ghost predicate Valid()
      reads this
    {
      forall id: JobId :: id in jobs <==> 1 <= id <= lastId
    }

    constructor ()
      ensures Valid() && jobs == map[]
    {
      jobs, lastId := map[], 0;
    }

    method Enqueue(message: string, maxAttempts: int, nextAttemptAt: Option<int>, now: int) returns (id: JobId)
      requires Valid()
      modifies this
      ensures Valid() && id == old(lastId) + 1 && lastId == id
      ensures jobs == old(jobs)[id := Fresh(message, maxAttempts, nextAttemptAt, now)]
    {
      lastId := lastId + 1;
      id := lastId;
      jobs := jobs[id := Fresh(message, maxAttempts, nextAttemptAt, now)];
    }

    /** Leases the oldest ready job, reclaiming expired leases. */
    method Claim(now: int, lease: int) returns (claimed: Option<JobId>)
      requires Valid()
      modifies this`jobs
      ensures Valid()
      ensures claimed.None? ==> NoneReady(jobs, now) && jobs == old(jobs)
      ensures claimed.Some? ==>
        && LeastReady(old(jobs), now, claimed.value)
        && jobs == old(jobs)[claimed.value := Leased(old(jobs)[claimed.value], now, lease)]
      ensures claimed.Some? ==>
        forall other | other in old(jobs) && Ready(old(jobs)[other], now) ::
          || old(jobs)[claimed.value].nextAttemptAt < old(jobs)[other].nextAttemptAt
          || (old(jobs)[claimed.value].nextAttemptAt == old(jobs)[other].nextAttemptAt && claimed.value <= other)
    {
      claimed := None;
      for id := 1 to lastId + 1
        invariant claimed.None? ==> forall i | 1 <= i < id :: !Ready(jobs[i], now)
        invariant claimed.Some? ==>
          && 1 <= claimed.value < id && Ready(jobs[claimed.value], now)
          && forall i | 1 <= i < id && Ready(jobs[i], now) :: Before(jobs, claimed.value, i)
        invariant jobs == old(jobs)
      {
        if Ready(jobs[id], now) && (claimed.None? || !Before(jobs, claimed.value, id)) {
          claimed := Some(id);
        }
      }
      if claimed.Some? {
        jobs := jobs[claimed.value := Leased(jobs[claimed.value], now, lease)];
      }
    }

    method Complete(id: JobId, at: int) returns (ok: bool)
      requires Valid()
      modifies this`jobs
      ensures Valid() && ok == (id in old(jobs) && old(jobs)[id].status == Processing)
      ensures jobs == if ok then old(jobs)[id := Completed(old(jobs)[id], at)] else old(jobs)
    {
      ok := id in jobs && jobs[id].status == Processing;
      if ok {
        jobs := jobs[id := jobs[id].(status := Sent, sentAt := Some(at), leaseUntil := None, lastError := "")];
      }
    }

    method Fail(id: JobId, retryAt: int, error: string, dead: bool) returns (ok: bool)
      requires Valid()
      modifies this`jobs
      ensures Valid() && ok == (id in old(jobs) && old(jobs)[id].status == Processing)
      ensures jobs == if ok then old(jobs)[id := Failed(old(jobs)[id], retryAt, error, dead)] else old(jobs)
    {
      ok := id in jobs && jobs[id].status == Processing;
      if ok {
        var status := Pending;
        if dead {
          status := DeadLetter;
        }
        jobs := jobs[id := jobs[id].(status := status, nextAttemptAt := retryAt, leaseUntil := None,
                                     lastError := error)];
      }
    }

    method Retry(id: JobId, now: int) returns (ok: bool)
      requires Valid()
      modifies this`jobs
      ensures Valid() && ok == (id in old(jobs) && old(jobs)[id].status == DeadLetter)
      ensures jobs == if ok then old(jobs)[id := Retried(old(jobs)[id], now)] else old(jobs)
    {
      ok := id in jobs && jobs[id].status == DeadLetter;
      if ok {
        jobs := jobs[id := jobs[id].(status := Pending, attempts := 0, nextAttemptAt := now, leaseUntil := None,
                                     lastError := "")];
      }
    }

    /** deliverOne: claim, send, record. The send is the outside world's. */
    method DeliverOne(now: int, lease: int, backoff: int -> int, doneAt: int, sendFails: bool) returns (worked: bool)
      requires Valid()
      modifies this`jobs
      ensures Valid()
      ensures !worked ==> NoneReady(jobs, now) && jobs == old(jobs)
      ensures worked ==> DeliversLeast(old(jobs), jobs, now, lease, backoff, doneAt, sendFails)
    {
      var id := Claim(now, lease);
      if id.None? {
        return false;
      }
      var job := jobs[id.value];
      ghost var d := Delivery(now, lease, doneAt, doneAt + backoff(job.attempts), !sendFails);
      if sendFails {
        var dead := job.attempts >= job.maxAttempts;
        var _ := Fail(id.value, doneAt + backoff(job.attempts), "send failed", dead);
      } else {
        var _ := Complete(id.value, doneAt);
      }
      assert jobs == Delivered(old(jobs), id.value, d);
      return true;
    }
  }

  /** One crash-free delivery: when it claimed, for how long, when it finished,
      when a failed send is retried, and whether the send worked. */
  datatype Delivery = Delivery(now: int, lease: int, doneAt: int, retryAt: int, sent: bool)

  /** The job after such a delivery. */
  function DeliveredJob(j: Job, d: Delivery): Job {
    var leased := Leased(j, d.now, d.lease);
    if d.sent then Completed(leased, d.doneAt)
    else Failed(leased, d.retryAt, "send failed", leased.attempts >= leased.maxAttempts)
  }

  function Delivered(jobs: Jobs, id: JobId, d: Delivery): Jobs
    requires id in jobs
  {
    jobs[id := DeliveredJob(jobs[id], d)]
  }

  // When a job is ready.

  /** A new job has all its attempts and is ready from its first time on, or at once. */
  lemma FreshIsReady(message: string, maxAttempts: int, nextAttemptAt: Option<int>, now: int, t: int)
    ensures var j := Fresh(message, maxAttempts, nextAttemptAt, now);
            && j.message == message && j.attempts == 0 && j.maxAttempts == (if maxAttempts > 0 then maxAttempts else 6)
            && (Ready(j, t) <==> t >= if nextAttemptAt == None then now else nextAttemptAt.value)
  {
  }

  /** A claimed job has used one attempt and is not ready again before its lease ends. */
  lemma LeaseHolds(j: Job, now: int, lease: int, t: int)
    ensures Leased(j, now, lease).attempts == j.attempts + 1
    ensures Ready(Leased(j, now, lease), t) <==> t >= now + lease
  {
  }

  /** After a failed delivery with attempts left the job is pending and ready exactly from
      its retry time on; after the last one, or a successful one, it is never ready. */
  lemma DeliveryDecidesReadiness(j: Job, d: Delivery, t: int)
    ensures var after := DeliveredJob(j, d);
            && after.attempts == j.attempts + 1 && after.message == j.message && after.maxAttempts == j.maxAttempts
            && after.leaseUntil == None && after.lastError == (if d.sent then "" else "send failed")
            && (d.sent ==> after.status == Sent && after.sentAt == Some(d.doneAt) && !Ready(after, t))
            && (!d.sent && j.attempts + 1 >= j.maxAttempts ==> after.status == DeadLetter && !Ready(after, t))
            && (!d.sent && j.attempts + 1 < j.maxAttempts ==>
                  after.status == Pending && (Ready(after, t) <==> t >= d.retryAt))
  {
  }

  /** A dead letter that is retried has all its attempts again and is ready at once. */
  lemma RetriedIsReady(j: Job, now: int, t: int)
    requires j.status == DeadLetter
    ensures Retried(j, now).attempts == 0 && Retried(j, now).maxAttempts == j.maxAttempts
    ensures Ready(Retried(j, now), t) <==> t >= now
  {
  }

  /** deliverOne's effect: the least ready job gets one delivery, and a failed send is
      retried after the backoff for the attempt just made. */
  ghost predicate DeliversLeast(was: Jobs, jobs: Jobs, now: int, lease: int, backoff: int -> int, doneAt: int,
                                sendFails: bool) {
    exists id | LeastReady(was, now, id) ::
      jobs == Delivered(was, id, Delivery(now, lease, doneAt, doneAt + backoff(was[id].attempts + 1), !sendFails))
  }
}
