/** Every interleaving of scheduler ticks with the schedule API, one store call or one
    Update call at a time. The process may be killed between any two of them. */
module OnceRuns {
  import opened Options
  import opened Scheduling

  /** The schedule in hand once its executor is done and before its row is marked. */
  datatype Finished = Finished(id: nat, kind: string, called: bool, next: Option<int>)

  /** A running tick: the due schedules it read at its start and has not reached yet. */
  datatype Work = Work(queue: seq<Schedule>, finished: Option<Finished>)

  /** `requests` are the enable or disable requests past the completed-schedule guard.
      `calls` and `lost` are history, by schedule: the Update calls the gate let through,
      and those after which the row was never marked, because the process was killed or
      the write failed. */
  datatype System = System(rows: map<nat, Schedule>, lastId: nat, tick: Option<Work>, requests: set<(nat, bool)>,
                           calls: map<nat, nat>, lost: map<nat, nat>)

  datatype Result = NotFound | AtGate | Answered

  datatype Step =
    | Create(sc: Schedule)
    | Check(id: nat, enabled: bool)
    | SetEnabled(id: nat, enabled: bool)
    | Delete(id: nat)
    | Touch(id: nat, t: int)
    | StartTick(due: seq<Schedule>, t: int)
    | ExecuteOnce(result: Result)
    | ExecuteCron(paused: bool, next: Option<int>)
    | PassOver
    | Mark(t: int)
    | MarkFails
    | EndTick
    | Kill

  function Count(counts: map<nat, nat>, id: nat): nat {
    if id in counts then counts[id] else 0
  }

  /** DueSchedules: exactly the due rows, by ascending ID. */
  ghost predicate IsDueList(rows: map<nat, Schedule>, due: seq<Schedule>, t: int) {
    && (forall i, j | 0 <= i < j < |due| :: due[i].id < due[j].id)
    && (forall i | 0 <= i < |due| :: due[i].id in rows && rows[due[i].id] == due[i] && Due(due[i], t))
    && (forall id | id in rows && Due(rows[id], t) :: rows[id] in due)
  }

  predicate Reaches(s: System, kind: string) {
    s.tick.Some? && s.tick.value.finished.None? && s.tick.value.queue != [] && s.tick.value.queue[0].kind == kind
  }

  ghost predicate Enabled(s: System, step: Step) {
    match step
    case Create(sc) => sc.lastRunAt.None?
    case Check(id, _) => id in s.rows && !Completed(s.rows[id])
    case SetEnabled(id, enabled) => (id, enabled) in s.requests
    case Touch(id, _) => id in s.rows && s.rows[id].kind == "relative"
    case StartTick(due, t) => s.tick.None? && IsDueList(s.rows, due, t)
    case ExecuteOnce(_) => Reaches(s, "once")
    case ExecuteCron(_, _) => Reaches(s, "cron")
    case PassOver =>
      && s.tick.Some? && s.tick.value.finished.None? && s.tick.value.queue != []
      && !Runnable(s.tick.value.queue[0])
    case Mark(_) => s.tick.Some? && s.tick.value.finished.Some?
    case MarkFails => s.tick.Some? && s.tick.value.finished.Some?
    case EndTick => s.tick.Some? && s.tick.value == Work([], None)
    case _ => true
  }

  ghost function Apply(s: System, step: Step): System
    requires Enabled(s, step)
  {
    match step
    case Create(sc) =>
      var id := s.lastId + 1;
      s.(rows := s.rows[id := sc.(id := id)], lastId := id)
    case Check(id, enabled) => s.(requests := s.requests + {(id, enabled)})
    case SetEnabled(id, enabled) =>
      if id in s.rows then s.(rows := s.rows[id := s.rows[id].(enabled := enabled)]) else s
    case Delete(id) => s.(rows := s.rows - {id})
    case Touch(id, t) => s.(rows := s.rows[id := s.rows[id].(lastRunAt := Some(t))])
    case StartTick(due, _) => s.(tick := Some(Work(due, None)))
    case ExecuteOnce(result) =>
      var sc := s.tick.value.queue[0];
      if result == AtGate then Next(s, None)
      else if result == NotFound then Next(s, Some(Finished(sc.id, sc.kind, false, None)))
      else Next(s.(calls := s.calls[sc.id := Count(s.calls, sc.id) + 1]), Some(Finished(sc.id, sc.kind, true, None)))
    case ExecuteCron(paused, next) =>
      var sc := s.tick.value.queue[0];
      Next(s, if paused then None else Some(Finished(sc.id, sc.kind, false, next)))
    case PassOver => Next(s, None)
    case Mark(t) =>
      var f := s.tick.value.finished.value;
      var tick := Some(s.tick.value.(finished := None));
      if f.id in s.rows then s.(rows := s.rows[f.id := MarkedRow(s.rows[f.id], f.next, t)], tick := tick)
      else s.(tick := tick)
    case MarkFails => s.(tick := Some(s.tick.value.(finished := None)), lost := LostMark(s))
    case EndTick => s.(tick := None)
    case Kill => s.(tick := None, requests := {}, lost := LostMark(s))
  }

  /** The lost marks when the one in hand, if any, is lost too. */
  function LostMark(s: System): map<nat, nat> {
    if s.tick.Some? && s.tick.value.finished.Some? && s.tick.value.finished.value.called
    then s.lost[s.tick.value.finished.value.id := Count(s.lost, s.tick.value.finished.value.id) + 1]
    else s.lost
  }

  function Next(s: System, finished: Option<Finished>): System
    requires s.tick.Some? && s.tick.value.queue != []
  {
    s.(tick := Some(Work(s.tick.value.queue[1..], finished)))
  }

  ghost predicate Initial(s: System) {
    s == System(map[], 0, None, {}, map[], map[])
  }

  ghost predicate Runs(s: System, steps: seq<Step>)
    decreases |steps|, 0
  {
    steps != [] ==>
      && Runs(s, steps[..|steps| - 1])
      && Enabled(After(s, steps[..|steps| - 1]), steps[|steps| - 1])
  }

  ghost function After(s: System, steps: seq<Step>): System
    requires Runs(s, steps)
    decreases |steps|, 1
  {
    if steps == [] then s else Apply(After(s, steps[..|steps| - 1]), steps[|steps| - 1])
  }

  // The invariant.

  /** No call of this schedule has gone without its mark being lost. */
  predicate Unspent(s: System, id: nat) {
    Count(s.calls, id) <= Count(s.lost, id)
  }

  ghost predicate RowOk(s: System, id: nat)
    requires id in s.rows
  {
    var sc := s.rows[id];
    && sc.id == id <= s.lastId
    && (Completed(sc) ==> sc.nextRunAt.None?)
    && (sc.kind == "once" && sc.nextRunAt.Some? && !Pending(s, id) ==> Unspent(s, id))
  }

  /** The schedule's call is made and its row not yet marked. */
  predicate Pending(s: System, id: nat) {
    && s.tick.Some? && s.tick.value.finished.Some?
    && s.tick.value.finished.value.called && s.tick.value.finished.value.id == id
  }

  predicate SameKind(s: System, id: nat, kind: string) {
    id <= s.lastId && (id in s.rows ==> s.rows[id].kind == kind)
  }

  ghost predicate WorkOk(s: System, w: Work) {
    && (forall i, j | 0 <= i < j < |w.queue| :: w.queue[i].id < w.queue[j].id)
    && (forall i | 0 <= i < |w.queue| :: QueuedOk(s, w.queue[i]))
    && (w.finished.Some? ==>
          var f := w.finished.value;
          && SameKind(s, f.id, f.kind)
          && (f.kind == "once" ==> f.next.None?)
          && (forall i | 0 <= i < |w.queue| :: f.id < w.queue[i].id))
  }

  predicate QueuedOk(s: System, sc: Schedule) {
    SameKind(s, sc.id, sc.kind) && (sc.kind == "once" ==> Unspent(s, sc.id))
  }

  ghost predicate Invariant(s: System) {
    && (forall id | id in s.rows :: RowOk(s, id))
    && (forall id | id > s.lastId :: Count(s.calls, id) == 0)
    && (forall id :: Count(s.lost, id) <= Count(s.calls, id) <= Count(s.lost, id) + 1)
    && (forall id | Pending(s, id) :: Count(s.lost, id) < Count(s.calls, id))
    && (s.tick.Some? ==> WorkOk(s, s.tick.value))
  }

  predicate Advances(step: Step) {
    step.ExecuteOnce? || step.ExecuteCron? || step.PassOver?
  }

  lemma AdvanceKeepsRows(s: System, step: Step, id: nat)
    requires Invariant(s) && Enabled(s, step) && Advances(step) && id in s.rows
    ensures RowOk(Apply(s, step), id)
  {
  }

  lemma MarkKeepsRows(s: System, step: Step, id: nat)
    requires Invariant(s) && Enabled(s, step) && (step.Mark? || step.MarkFails? || step.Kill?) && id in s.rows
    ensures RowOk(Apply(s, step), id)
  {
  }

  lemma OthersKeepRows(s: System, step: Step, id: nat)
    requires Invariant(s) && Enabled(s, step) && !Advances(step) && id in Apply(s, step).rows
    requires !step.Mark? && !step.MarkFails? && !step.Kill?
    ensures RowOk(Apply(s, step), id)
  {
  }

  lemma RowsKept(s: System, step: Step, id: nat)
    requires Invariant(s) && Enabled(s, step) && id in Apply(s, step).rows
    ensures RowOk(Apply(s, step), id)
  {
    if Advances(step) {
      AdvanceKeepsRows(s, step, id);
    } else if step.Mark? || step.MarkFails? || step.Kill? {
      MarkKeepsRows(s, step, id);
    } else {
      OthersKeepRows(s, step, id);
    }
  }

  lemma SameKindKept(s: System, step: Step, id: nat, kind: string)
    requires Enabled(s, step) && SameKind(s, id, kind)
    ensures SameKind(Apply(s, step), id, kind)
  {
  }

  lemma QueuedKept(s: System, step: Step, sc: Schedule)
    requires Enabled(s, step) && QueuedOk(s, sc)
    requires step.ExecuteOnce? ==> sc.id != s.tick.value.queue[0].id
    ensures QueuedOk(Apply(s, step), sc)
  {
  }

  lemma AdvanceKeepsWork(s: System, step: Step)
    requires Invariant(s) && Enabled(s, step) && Advances(step)
    ensures WorkOk(Apply(s, step), Apply(s, step).tick.value)
  {
    var s', queue := Apply(s, step), s.tick.value.queue;
    assert s'.tick.value.queue == queue[1..];
    forall i | 0 <= i < |queue[1..]| ensures QueuedOk(s', queue[1..][i]) && queue[0].id < queue[1..][i].id {
      assert queue[1..][i] == queue[i + 1] && QueuedOk(s, queue[i + 1]);
      QueuedKept(s, step, queue[i + 1]);
    }
    assert QueuedOk(s, queue[0]);
    SameKindKept(s, step, queue[0].id, queue[0].kind);
  }

  lemma {:induction false} OthersKeepWork(s: System, step: Step)
    requires Invariant(s) && Enabled(s, step) && !Advances(step) && !step.StartTick?
    requires Apply(s, step).tick.Some?
    ensures WorkOk(Apply(s, step), Apply(s, step).tick.value)
  {
    var s', w := Apply(s, step), s.tick.value;
    assert s'.tick.value.queue == w.queue;
    forall i | 0 <= i < |w.queue| ensures QueuedOk(s', w.queue[i]) {
      QueuedKept(s, step, w.queue[i]);
    }
    if w.finished.Some? {
      SameKindKept(s, step, w.finished.value.id, w.finished.value.kind);
    }
  }

  lemma WorkKept(s: System, step: Step)
    requires Invariant(s) && Enabled(s, step) && Apply(s, step).tick.Some?
    ensures WorkOk(Apply(s, step), Apply(s, step).tick.value)
  {
    if Advances(step) {
      AdvanceKeepsWork(s, step);
    } else if step.StartTick? {
      forall i | 0 <= i < |step.due| ensures QueuedOk(Apply(s, step), step.due[i]) {
        assert RowOk(s, step.due[i].id);
      }
    } else {
      OthersKeepWork(s, step);
    }
  }

  lemma CountsKept(s: System, step: Step, id: nat)
    requires Invariant(s) && Enabled(s, step)
    ensures Count(Apply(s, step).lost, id) <= Count(Apply(s, step).calls, id) <= Count(Apply(s, step).lost, id) + 1
    ensures Pending(Apply(s, step), id) ==> Count(Apply(s, step).lost, id) < Count(Apply(s, step).calls, id)
    ensures id > Apply(s, step).lastId ==> Count(Apply(s, step).calls, id) == 0
  {
  }

  lemma InvariantKept(s: System, step: Step)
    requires Invariant(s) && Enabled(s, step)
    ensures Invariant(Apply(s, step))
  {
    var s' := Apply(s, step);
    forall id | id in s'.rows ensures RowOk(s', id) {
      RowsKept(s, step, id);
    }
    forall id: nat
      ensures Count(s'.lost, id) <= Count(s'.calls, id) <= Count(s'.lost, id) + 1
      ensures Pending(s', id) ==> Count(s'.lost, id) < Count(s'.calls, id)
      ensures id > s'.lastId ==> Count(s'.calls, id) == 0
    {
      CountsKept(s, step, id);
    }
    if s'.tick.Some? {
      WorkKept(s, step);
    }
  }

  lemma {:induction false} InvariantHolds(s: System, steps: seq<Step>)
    requires Initial(s) && Runs(s, steps)
    ensures Invariant(After(s, steps))
    decreases |steps|
  {
    if steps != [] {
      InvariantHolds(s, steps[..|steps| - 1]);
      InvariantKept(After(s, steps[..|steps| - 1]), steps[|steps| - 1]);
    }
  }

  /** Over every run a one-off schedule makes one Update call past the maintenance gate for
      each time the marking of its row after such a call was lost, to a kill or to a failed
      write, and at most one more. */
  lemma AtMostOneCall(s: System, steps: seq<Step>, id: nat)
    requires Initial(s) && Runs(s, steps)
    ensures Count(After(s, steps).lost, id) <= Count(After(s, steps).calls, id) <= 1 + Count(After(s, steps).lost, id)
  {
    InvariantHolds(s, steps);
  }

  lemma RunGrows(s: System, steps: seq<Step>, step: Step)
    requires Runs(s, steps) && Enabled(After(s, steps), step)
    ensures Runs(s, steps + [step]) && After(s, steps + [step]) == Apply(After(s, steps), step)
  {
    assert (steps + [step])[..|steps|] == steps;
  }

  /** The run up to its first call: create, start a tick, execute. */
  lemma FirstCall(s: System, sc: Schedule, t: int) returns (steps: seq<Step>)
    requires Initial(s) && sc.kind == "once" && sc.lastRunAt.None? && Due(sc, t)
    ensures Runs(s, steps)
    ensures var at, row := After(s, steps), sc.(id := 1);
            && at.rows == map[1 := row] && at.calls == map[1 := 1] && at.lost == map[]
            && at.tick == Some(Work([], Some(Finished(1, "once", true, None))))
  {
    var row := sc.(id := 1);
    steps := [];
    RunGrows(s, steps, Create(sc));
    steps := steps + [Create(sc)];
    assert After(s, steps).rows == map[1 := row];
    RunGrows(s, steps, StartTick([row], t));
    steps := steps + [StartTick([row], t)];
    RunGrows(s, steps, ExecuteOnce(Answered));
    steps := steps + [ExecuteOnce(Answered)];
    assert [row][1..] == [];
  }

  /** One lost mark, by a kill or by a failed write, really makes the second call. */
  lemma LostMarkRepeatsTheCall(s: System, sc: Schedule, t: int, kill: bool) returns (steps: seq<Step>)
    requires Initial(s) && sc.kind == "once" && sc.lastRunAt.None? && Due(sc, t)
    ensures Runs(s, steps) && Count(After(s, steps).calls, 1) == 2 && Count(After(s, steps).lost, 1) == 1
  {
    var due := [sc.(id := 1)];
    steps := FirstCall(s, sc, t);
    if kill {
      RunGrows(s, steps, Kill);
      steps := steps + [Kill];
    } else {
      RunGrows(s, steps, MarkFails);
      steps := steps + [MarkFails];
      RunGrows(s, steps, EndTick);
      steps := steps + [EndTick];
    }
    RunGrows(s, steps, StartTick(due, t));
    steps := steps + [StartTick(due, t)];
    RunGrows(s, steps, ExecuteOnce(Answered));
    steps := steps + [ExecuteOnce(Answered)];
  }

  /** A completed one-off schedule is never due again, even when an enable request
      that was checked before it fired is written after. */
  lemma CompletedIsNeverDue(s: System, steps: seq<Step>, id: nat, t: int)
    requires Initial(s) && Runs(s, steps) && id in After(s, steps).rows && Completed(After(s, steps).rows[id])
    ensures !Due(After(s, steps).rows[id], t)
  {
    InvariantHolds(s, steps);
    assert RowOk(After(s, steps), id);
  }
}
