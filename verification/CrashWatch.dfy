/** The post-update crash watch of one container: arming, crash events, expiry,
    and the reconciliation with Docker's restart counter. Times are nanoseconds. */
module CrashWatch {
  import opened Options

  type ContainerId = nat

  datatype WatchStatus = Active | Triggered | Expired | Closed(reason: string)

  /** A row of rollback_watches. */
  datatype Watch = Watch(
    containerId: ContainerId, appliedAt: int, expiresAt: int,
    crashCount: nat, threshold: int, observedRestarts: int, lastEventNano: int,
    lastCrashAt: Option<int>, triggeredAt: Option<int>, status: WatchStatus)

  datatype CrashEvent = CrashEvent(containerId: ContainerId, nano: int, at: int)

  /** The row an arming writes, whatever was there before. */
  function Armed(id: ContainerId, appliedAt: int, window: int, threshold: int, restarts: int): Watch {
    Watch(id, appliedAt, appliedAt + window, 0, threshold, restarts, 0, None, None, Active)
  }

  predicate IsArmed(w: Watch) {
    w == Armed(w.containerId, w.appliedAt, w.expiresAt - w.appliedAt, w.threshold, w.observedRestarts)
  }

  /** RecordCrash counts the event. */
  predicate Accepts(w: Watch, e: CrashEvent) {
    w.status == Active && w.containerId == e.containerId && e.at < w.expiresAt && e.nano > w.lastEventNano
  }

  /** RecordCrash returns triggered. */
  predicate Triggers(w: Watch, e: CrashEvent) {
    Accepts(w, e) && w.crashCount + 1 >= w.threshold
  }

  /** The row RecordCrash leaves. */
  function Recorded(w: Watch, e: CrashEvent): Watch {
    if !Accepts(w, e) then w
    else w.(
      crashCount := w.crashCount + 1,
      observedRestarts := w.observedRestarts + 1,
      lastEventNano := e.nano,
      lastCrashAt := Some(e.at),
      triggeredAt := if Triggers(w, e) then Some(e.at) else None,
      status := if Triggers(w, e) then Triggered else Active)
  }

  function Replay(w: Watch, events: seq<CrashEvent>): Watch {
    if events == [] then w
    else Recorded(Replay(w, events[..|events| - 1]), events[|events| - 1])
  }

  // Reference count: record-high events of the watched container inside the window.

  predicate Eligible(armed: Watch, e: CrashEvent) {
    e.containerId == armed.containerId && e.at < armed.expiresAt
  }

  /** The largest timestamp among the eligible events, at least zero. */
  function HighWater(armed: Watch, events: seq<CrashEvent>): int {
    if events == [] then 0
    else
      var e, high := events[|events| - 1], HighWater(armed, events[..|events| - 1]);
      if Eligible(armed, e) && e.nano > high then e.nano else high
  }

  /** How many eligible events exceeded every eligible timestamp before them. */
  function RecordHighs(armed: Watch, events: seq<CrashEvent>): nat {
    if events == [] then 0
    else
      var e, before := events[|events| - 1], events[..|events| - 1];
      RecordHighs(armed, before) + if Eligible(armed, e) && e.nano > HighWater(armed, before) then 1 else 0
  }

  /** How many RecordCrash calls of a run returned triggered. */
  function TriggerCount(w: Watch, events: seq<CrashEvent>): nat {
    if events == [] then 0
    else
      var before := events[..|events| - 1];
      TriggerCount(w, before) + if Triggers(Replay(w, before), events[|events| - 1]) then 1 else 0
  }

  function Min(a: int, b: int): int { if a <= b then a else b }

  /** Per arming, the count is the smaller of the threshold and the number of
      record-high events, and exactly one call reports the crossing, if it happens. */
  lemma {:induction false} CrashCountIsCapped(armed: Watch, events: seq<CrashEvent>)
    requires IsArmed(armed) && armed.threshold >= 1
    ensures var w := Replay(armed, events);
            var highs := RecordHighs(armed, events);
            && w.crashCount == Min(armed.threshold, highs)
            && w.status == (if highs < armed.threshold then Active else Triggered)
            && TriggerCount(armed, events) == (if highs < armed.threshold then 0 else 1)
            && (w.status == Active ==> w.lastEventNano == HighWater(armed, events))
            && w.containerId == armed.containerId && w.expiresAt == armed.expiresAt && w.threshold == armed.threshold
  {
    if events != [] {
      CrashCountIsCapped(armed, events[..|events| - 1]);
    }
  }

  // Runs of every operation on one arming.

  datatype WatchOp =
    | Crash(event: CrashEvent)
    | Reconcile(restarts: int, now: int)
    | Expire(now: int)
    | Close(reason: string)

  /** The synthetic events reconcile records for restarts it has not seen. */
  function CounterEvents(w: Watch, delta: nat, now: int): seq<CrashEvent> {
    seq(delta, i => CrashEvent(w.containerId, now + i, now))
  }

  function RestartDelta(w: Watch, restarts: int): nat {
    if restarts > w.observedRestarts then restarts - w.observedRestarts else 0
  }

  /** reconcile for one listed watch: record the difference, then write the
      counter back, even when it went down. */
  function Reconciled(w: Watch, restarts: int, now: int): Watch {
    Replay(w, CounterEvents(w, RestartDelta(w, restarts), now)).(observedRestarts := restarts)
  }

  /** ExpireRollbackWatches for one row. */
  function ExpiredAt(w: Watch, now: int): Watch {
    if w.status == Active && w.expiresAt <= now then w.(status := Expired) else w
  }

  function Step(w: Watch, op: WatchOp): Watch {
    match op
    case Crash(e) => Recorded(w, e)
    case Reconcile(r, now) =>
      var live := ExpiredAt(w, now);
      if live.status == Active then Reconciled(live, r, now) else live
    case Expire(now) => ExpiredAt(w, now)
    case Close(reason) => w.(status := Closed(reason))
  }

  /** How many triggered results one operation hands out. */
  function StepTriggers(w: Watch, op: WatchOp): nat {
    match op
    case Crash(e) => if Triggers(w, e) then 1 else 0
    case Reconcile(r, now) =>
      var live := ExpiredAt(w, now);
      if live.status == Active then TriggerCount(live, CounterEvents(live, RestartDelta(live, r), now)) else 0
    case _ => 0
  }

  function Run(w: Watch, ops: seq<WatchOp>): Watch {
    if ops == [] then w else Step(Run(w, ops[..|ops| - 1]), ops[|ops| - 1])
  }

  function RunTriggers(w: Watch, ops: seq<WatchOp>): nat {
    if ops == [] then 0
    else
      var before := ops[..|ops| - 1];
      RunTriggers(w, before) + StepTriggers(Run(w, before), ops[|ops| - 1])
  }

  lemma {:induction false} ReplayTriggersOnce(w: Watch, events: seq<CrashEvent>)
    ensures TriggerCount(w, events) + (if Replay(w, events).status == Active then 1 else 0)
         <= if w.status == Active then 1 else 0
  {
    if events != [] {
      ReplayTriggersOnce(w, events[..|events| - 1]);
    }
  }

  /** Whatever is done to a watch between two armings, triggered is returned at
      most once, and once it was, the watch is never active again. */
  lemma {:induction false} AtMostOneTrigger(armed: Watch, ops: seq<WatchOp>)
    requires armed.status == Active
    ensures RunTriggers(armed, ops) <= 1
    ensures RunTriggers(armed, ops) == 1 ==> Run(armed, ops).status != Active
  {
    if ops != [] {
      var before, op := ops[..|ops| - 1], ops[|ops| - 1];
      AtMostOneTrigger(armed, before);
      if op.Reconcile? {
        var live := ExpiredAt(Run(armed, before), op.now);
        ReplayTriggersOnce(live, CounterEvents(live, RestartDelta(live, op.restarts), op.now));
      }
    }
  }

  // The count over every run.

  /** The crash events, real and synthetic, that a run hands to an active watch. */
  function Offered(w: Watch, ops: seq<WatchOp>): seq<CrashEvent> {
    if ops == [] then []
    else
      var before := ops[..|ops| - 1];
      Offered(w, before) + StepEvents(Run(w, before), ops[|ops| - 1])
  }

  function StepEvents(w: Watch, op: WatchOp): seq<CrashEvent> {
    match op
    case Crash(e) => if w.status == Active then [e] else []
    case Reconcile(r, now) =>
      var live := ExpiredAt(w, now);
      if live.status == Active then CounterEvents(live, RestartDelta(live, r), now) else []
    case _ => []
  }

  /** Equal but for the observed counter. */
  predicate SameCount(a: Watch, b: Watch) {
    a == b.(observedRestarts := a.observedRestarts)
  }

  lemma {:induction false} ReplayIgnoresCounter(a: Watch, b: Watch, events: seq<CrashEvent>)
    requires SameCount(a, b)
    ensures SameCount(Replay(a, events), Replay(b, events)) && TriggerCount(a, events) == TriggerCount(b, events)
  {
    if events != [] {
      ReplayIgnoresCounter(a, b, events[..|events| - 1]);
    }
  }

  lemma {:induction false} ReplayInParts(w: Watch, a: seq<CrashEvent>, b: seq<CrashEvent>)
    ensures Replay(w, a + b) == Replay(Replay(w, a), b)
    ensures TriggerCount(w, a + b) == TriggerCount(w, a) + TriggerCount(Replay(w, a), b)
  {
    if b == [] {
      assert a + b == a;
    } else {
      ReplayInParts(w, a, b[..|b| - 1]);
      assert (a + b)[..|a + b| - 1] == a + b[..|b| - 1];
    }
  }

  /** What an operation does to the count is what its events do. */
  lemma {:induction false} StepIsReplay(w: Watch, op: WatchOp)
    ensures var replayed := Replay(w, StepEvents(w, op));
            && Step(w, op).crashCount == replayed.crashCount && Step(w, op).lastEventNano == replayed.lastEventNano
            && StepTriggers(w, op) == TriggerCount(w, StepEvents(w, op))
            && (Step(w, op).status == Active ==> SameCount(Step(w, op), replayed))
            && (w.status != Active ==> StepEvents(w, op) == [])
  {
    if op.Crash? && w.status == Active {
      assert [op.event][..0] == [];
      assert Replay(w, [op.event]) == Recorded(Replay(w, []), op.event);
      assert TriggerCount(w, [op.event]) == TriggerCount(w, []) + if Triggers(Replay(w, []), op.event) then 1 else 0;
    }
  }

  lemma {:induction false} RunIsReplay(armed: Watch, ops: seq<WatchOp>)
    ensures var replayed := Replay(armed, Offered(armed, ops));
            && Run(armed, ops).crashCount == replayed.crashCount
            && RunTriggers(armed, ops) == TriggerCount(armed, Offered(armed, ops))
            && (Run(armed, ops).status == Active ==> SameCount(Run(armed, ops), replayed))
  {
    if ops != [] {
      var before, op := ops[..|ops| - 1], ops[|ops| - 1];
      var at, more := Run(armed, before), StepEvents(Run(armed, before), op);
      var replayed := Replay(armed, Offered(armed, before));
      RunIsReplay(armed, before);
      StepIsReplay(at, op);
      ReplayInParts(armed, Offered(armed, before), more);
      if at.status == Active {
        ReplayIgnoresCounter(at, replayed, more);
      } else {
        NotActiveAgain(at, op);
      }
    }
  }

  lemma NotActiveAgain(w: Watch, op: WatchOp)
    requires w.status != Active
    ensures Step(w, op).status != Active && Step(w, op).crashCount == w.crashCount
  {
  }

  /** Per arming, over every run: the count is the smaller of the threshold and the number
      of record-high events handed in while the watch was active, restarts read by a
      reconcile included; triggered is returned exactly once if the threshold is
      reached, and an active watch is below it. */
  lemma CountOverEveryRun(armed: Watch, ops: seq<WatchOp>)
    requires IsArmed(armed) && armed.threshold >= 1
    ensures var w, highs := Run(armed, ops), RecordHighs(armed, Offered(armed, ops));
            && w.crashCount == Min(armed.threshold, highs)
            && RunTriggers(armed, ops) == (if highs < armed.threshold then 0 else 1)
            && (w.status == Active ==> highs < armed.threshold)
            && (w.status == Active ==> w.lastEventNano == HighWater(armed, Offered(armed, ops)))
  {
    RunIsReplay(armed, ops);
    CrashCountIsCapped(armed, Offered(armed, ops));
  }

  lemma {:induction false} ReplayMovesForward(w: Watch, events: seq<CrashEvent>)
    ensures var r := Replay(w, events);
            && r.lastEventNano >= w.lastEventNano && r.containerId == w.containerId && r.expiresAt == w.expiresAt
            && (r.status == Active ==> w.status == Active)
  {
    if events != [] {
      ReplayMovesForward(w, events[..|events| - 1]);
    }
  }

  /** No operation makes a watch accept an event it would not have accepted before. */
  lemma RejectedStaysRejected(w: Watch, op: WatchOp, e: CrashEvent)
    requires !Accepts(w, e)
    ensures !Accepts(Step(w, op), e)
  {
    if op.Reconcile? {
      var live := ExpiredAt(w, op.now);
      ReplayMovesForward(live, CounterEvents(live, RestartDelta(live, op.restarts), op.now));
    }
  }

  /** An event processed at any point of a run is never counted again in it. */
  lemma {:induction false} EventIsNotRecounted(armed: Watch, ops: seq<WatchOp>, e: CrashEvent)
    requires Crash(e) in ops
    ensures !Accepts(Run(armed, ops), e) && Recorded(Run(armed, ops), e) == Run(armed, ops)
  {
    var before, op := ops[..|ops| - 1], ops[|ops| - 1];
    if op != Crash(e) {
      assert ops == before + [op];
      EventIsNotRecounted(armed, before, e);
      RejectedStaysRejected(Run(armed, before), op, e);
    }
  }

  /** Replaying any events that were already processed, in any order and any number of
      times, after whatever else happened to the watch, changes nothing. */
  lemma {:induction false} ReplayIsIdempotent(armed: Watch, ops: seq<WatchOp>, again: seq<CrashEvent>)
    requires forall e | e in again :: Crash(e) in ops
    ensures Replay(Run(armed, ops), again) == Run(armed, ops)
  {
    if again != [] {
      assert again[|again| - 1] in again;
      ReplayIsIdempotent(armed, ops, again[..|again| - 1]);
      EventIsNotRecounted(armed, ops, again[|again| - 1]);
    }
  }

  /** Recovery after a daemon restart: once a reconcile has counted restarts, the event
      stream replayed from before it is not counted on top of them. */
  lemma {:induction false} ReconcileCoversThePast(w: Watch, restarts: int, now: int, past: seq<CrashEvent>)
    requires ExpiredAt(w, now).status == Active && restarts > w.observedRestarts && w.lastEventNano < now
    requires forall e | e in past :: e.nano <= now
    ensures Replay(Step(w, Reconcile(restarts, now)), past) == Step(w, Reconcile(restarts, now))
  {
    var after := Step(w, Reconcile(restarts, now));
    var delta := RestartDelta(w, restarts);
    var events := CounterEvents(w, delta, now);
    assert after.status == Active ==> after.lastEventNano >= now by {
      assert events == [events[0]] + events[1..];
      ReplayInParts(w, [events[0]], events[1..]);
      assert [events[0]][..0] == [];
      assert Replay(w, [events[0]]) == Recorded(Replay(w, []), events[0]);
      ReplayMovesForward(Recorded(w, events[0]), events[1..]);
    }
    if past != [] {
      assert past[|past| - 1] in past;
      ReconcileCoversThePast(w, restarts, now, past[..|past| - 1]);
    }
  }

  // What arming, expiry and reconciliation mean for later events.

  /** A fresh watch counts exactly the crashes of its container inside its window. */
  lemma ArmedWatches(id: ContainerId, appliedAt: int, window: int, threshold: int, restarts: int, e: CrashEvent)
    ensures Accepts(Armed(id, appliedAt, window, threshold, restarts), e) <==>
              e.containerId == id && e.at < appliedAt + window && e.nano > 0
  {
  }

  /** Expiry ends exactly the active watches whose window has passed, and nothing counts
      after it. */
  lemma ExpiryEndsTheWindow(w: Watch, now: int, e: CrashEvent)
    ensures ExpiredAt(w, now).status == Active <==> w.status == Active && now < w.expiresAt
    ensures w.expiresAt <= now ==> !Accepts(ExpiredAt(w, now), e)
    ensures w.status != Active || now < w.expiresAt ==> ExpiredAt(w, now) == w
  {
  }

  lemma {:induction false} CounterEventsCount(w: Watch, delta: nat, now: int)
    requires w.status == Active && w.crashCount < w.threshold && w.lastEventNano < now < w.expiresAt
    ensures var r := Replay(w, CounterEvents(w, delta, now));
            && r.crashCount == Min(w.threshold, w.crashCount + delta)
            && (r.status == Active <==> w.crashCount + delta < w.threshold)
            && (r.status == Active ==> r.lastEventNano < now + delta)
            && r.containerId == w.containerId && r.expiresAt == w.expiresAt && r.threshold == w.threshold
  {
    if delta > 0 {
      CounterEventsCount(w, delta - 1, now);
      assert CounterEvents(w, delta, now)[..delta - 1] == CounterEvents(w, delta - 1, now);
    }
  }

  /** A reconcile counts every restart Docker's counter shows beyond the observed one, up
      to the threshold, and takes the counter over. */
  lemma ReconcileCountsEveryRestart(w: Watch, restarts: int, now: int)
    requires w.status == Active && w.crashCount < w.threshold && w.lastEventNano < now < w.expiresAt
    ensures var r := Step(w, Reconcile(restarts, now));
            && r.observedRestarts == restarts
            && r.crashCount == (if restarts <= w.observedRestarts then w.crashCount
                                else Min(w.threshold, w.crashCount + restarts - w.observedRestarts))
            && (r.status == Triggered <==> r.crashCount == w.threshold)
  {
    CounterEventsCount(w, RestartDelta(w, restarts), now);
    TriggeredOrActive(w, CounterEvents(w, RestartDelta(w, restarts), now));
  }

  lemma {:induction false} TriggeredOrActive(w: Watch, events: seq<CrashEvent>)
    requires w.status == Active
    ensures Replay(w, events).status == Active || Replay(w, events).status == Triggered
  {
    if events != [] {
      TriggeredOrActive(w, events[..|events| - 1]);
    }
  }

  // Two sources for one count.

  /** How far the counter readings fell below what had been observed, summed up. */
  function Regress(w: Watch, ops: seq<WatchOp>): nat {
    if ops == [] then 0
    else
      var before, op := ops[..|ops| - 1], ops[|ops| - 1];
      var at := Run(w, before);
      Regress(w, before) +
      match op
      case Reconcile(r, now) =>
        if ExpiredAt(at, now).status == Active && r < at.observedRestarts then at.observedRestarts - r else 0
      case _ => 0
  }

  lemma {:induction false} ReplayGrowth(w: Watch, events: seq<CrashEvent>)
    ensures w.crashCount <= Replay(w, events).crashCount <= w.crashCount + |events|
    ensures Replay(w, events).crashCount - w.crashCount == Replay(w, events).observedRestarts - w.observedRestarts
    ensures Replay(w, events).containerId == w.containerId
  {
    if events != [] {
      ReplayGrowth(w, events[..|events| - 1]);
    }
  }

  /** The restarts that reconciles read and did not count, summed up: the watch had
      triggered, or its last event was not older than the reading. */
  function Missed(w: Watch, ops: seq<WatchOp>): nat {
    if ops == [] then 0
    else
      var before, op := ops[..|ops| - 1], ops[|ops| - 1];
      var at := Run(w, before);
      Missed(w, before) + StepMissed(at, op)
  }

  function StepMissed(w: Watch, op: WatchOp): nat {
    match op
    case Reconcile(r, now) =>
      var live := ExpiredAt(w, now);
      if live.status != Active then 0
      else
        var delta := RestartDelta(live, r);
        ReplayGrowth(live, CounterEvents(live, delta, now));
        live.crashCount + delta - Replay(live, CounterEvents(live, delta, now)).crashCount
    case _ => 0
  }

  /** The balance of the two sources: crashes counted and restarts missed are the
      observed restarts since arming and the sum of the counter's falls. */
  lemma {:induction false} CountBalance(armed: Watch, ops: seq<WatchOp>)
    requires IsArmed(armed)
    ensures Run(armed, ops).crashCount + Missed(armed, ops)
         == Run(armed, ops).observedRestarts - armed.observedRestarts + Regress(armed, ops)
  {
    if ops != [] {
      var before, op := ops[..|ops| - 1], ops[|ops| - 1];
      CountBalance(armed, before);
      if op.Reconcile? {
        var live := ExpiredAt(Run(armed, before), op.now);
        ReplayGrowth(live, CounterEvents(live, RestartDelta(live, op.restarts), op.now));
      }
    }
  }

  /** A reconcile leaves at most as many crashes as Docker counted restarts since arming,
      exactly when the readings fell by no more than was missed; so always when no
      reading fell below the observed count. */
  lemma CountAtReconcile(armed: Watch, ops: seq<WatchOp>, restarts: int, now: int)
    requires IsArmed(armed) && ExpiredAt(Run(armed, ops), now).status == Active
    ensures var all := ops + [Reconcile(restarts, now)];
            && (Run(armed, all).crashCount <= restarts - armed.observedRestarts
                <==> Regress(armed, all) <= Missed(armed, all))
            && (Regress(armed, all) == 0 ==> Run(armed, all).crashCount <= restarts - armed.observedRestarts)
  {
    var all := ops + [Reconcile(restarts, now)];
    assert all[..|all| - 1] == ops;
    CountBalance(armed, all);
  }

  /** The hypothesis is needed: an event counted before Docker's counter moved,
      then a low reading, counts the same restart twice. */
  lemma LowReadingCountsTwice(e: CrashEvent, now: int)
    requires e.containerId == 1 && 0 < e.nano < now && e.at < 100 && now < 100
    ensures var armed := Armed(1, 0, 100, 3, 0);
            var ops := [Crash(e), Reconcile(0, now), Reconcile(1, now)];
            Regress(armed, ops) > 0 && Run(armed, ops).crashCount == 2
  {
    var armed := Armed(1, 0, 100, 3, 0);
    var ops := [Crash(e), Reconcile(0, now), Reconcile(1, now)];
    var two := [Crash(e), Reconcile(0, now)];
    assert ops[..|ops| - 1] == two && two[..|two| - 1] == [Crash(e)] && [Crash(e)][..0] == [];
    var one := [Crash(e)];
    assert one[..|one| - 1] == [];
    var w1 := Run(armed, one);
    assert w1 == Step(Run(armed, []), Crash(e)) == Recorded(armed, e);
    var w2 := Run(armed, two);
    assert CounterEvents(w1, 0, now) == [];
    assert Replay(w1, []) == w1;
    assert Step(w1, Reconcile(0, now)) == w1.(observedRestarts := 0);
    assert w2 == w1.(observedRestarts := 0);
    assert ExpiredAt(w1, now) == w1 && w1.observedRestarts == 1 && two[|two| - 1] == Reconcile(0, now);
    assert Regress(armed, two) == Regress(armed, [Crash(e)]) + 1;
    var more := CounterEvents(w2, 1, now);
    assert more == [CrashEvent(1, now, now)] && more[..0] == [];
    assert Replay(w2, more) == Recorded(w2, more[0]);
  }
}
