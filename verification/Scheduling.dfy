/** The scheduler: what each tick starts, and what must not start before a self-update
    has finished. */
module Scheduling {
  import opened Options
  import opened UpdateCandidates
  import Timestamps

  /** A schedule row. A duration that does not parse is None. */
  datatype Schedule = Schedule(id: nat, kind: string, containerName: string, stack: string,
                               relativePolicy: string, relativeAfter: Option<int>, semverPolicy: string,
                               pinnedImage: string, enabled: bool, lastRunAt: Option<int>, nextRunAt: Option<int>)

  /** What the scheduler reads of a container row. */
  datatype Target = Target(id: string, name: string, stack: string, currentImage: string,
                           updateAvailable: bool, excluded: bool)

  /** A call of Update that the maintenance gate let through. */
  datatype Call = Call(schedule: nat, container: string, image: string, at: int)

  datatype Outcome = Succeeded | Failed | Refused

  datatype Blocker =
    | RollbackPending(name: string)
    | ScheduleDue(id: nat, at: int)
    | RelativeDue(id: nat, name: string, at: int)

  predicate Completed(sc: Schedule) {
    sc.kind == "once" && sc.lastRunAt.Some?
  }

  /** The WHERE of DueSchedules. */
  predicate Due(sc: Schedule, t: int) {
    sc.enabled && sc.nextRunAt.Some? && sc.nextRunAt.value <= t
  }

  predicate RetryReady(lastRunAt: Option<int>, interval: int, t: int) {
    lastRunAt.None? || !(t < lastRunAt.value + interval)
  }

  function Scope(sc: Schedule): string {
    if sc.semverPolicy == "" then "major" else sc.semverPolicy
  }

  /** The delay a relative policy waits, if its duration parses. */
  function Delay(sc: Schedule): Option<int> {
    if sc.relativePolicy == "delayed" then sc.relativeAfter else Some(0)
  }

  predicate Eligible(rec: Target) {
    rec.updateAvailable && !rec.excluded
  }

  predicate DistinctContainers(containers: seq<Target>) {
    forall i, j | 0 <= i < j < |containers| :: containers[i].id != containers[j].id
  }

  predicate DistinctSchedules(schedules: seq<Schedule>) {
    forall i, j | 0 <= i < j < |schedules| :: schedules[i].id != schedules[j].id
  }

  /** The rows of a name. There is more than one while the row of a container that was
      recreated outside has not been pruned. */
  function Named(containers: seq<Target>, name: string): (rows: seq<Target>)
    ensures forall i | 0 <= i < |rows| :: rows[i] in containers && rows[i].name == name
    ensures forall rec | rec in containers && rec.name == name :: rec in rows
  {
    if containers == [] then []
    else
      var n := |containers| - 1;
      assert containers == containers[..n] + [containers[n]];
      Named(containers[..n], name) + if containers[n].name == name then [containers[n]] else []
  }

  /** GetContainerByName. The query has no ORDER BY: `pick` says which row comes back. */
  function FindByName(containers: seq<Target>, name: string, pick: nat): (found: Option<Target>)
    ensures found.Some? ==> found.value in containers && found.value.name == name
    ensures found.None? ==> forall i | 0 <= i < |containers| :: containers[i].name != name
  {
    var rows := Named(containers, name);
    if rows == [] then None else Some(rows[pick % |rows|])
  }

  predicate UniqueNames(containers: seq<Target>) {
    forall i, j | 0 <= i < j < |containers| :: containers[i].name != containers[j].name
  }

  lemma {:induction false} OneRowPerName(containers: seq<Target>, name: string)
    requires UniqueNames(containers)
    ensures |Named(containers, name)| <= 1
  {
    if containers != [] {
      var n := |containers| - 1;
      OneRowPerName(containers[..n], name);
      var rows := Named(containers[..n], name);
      if rows != [] {
        assert rows[0] in containers[..n];
      }
    }
  }

  function InStack(containers: seq<Target>, stack: string): (members: seq<Target>)
    ensures forall i | 0 <= i < |members| :: members[i] in containers && members[i].stack == stack
    ensures forall rec | rec in containers && rec.stack == stack :: rec in members
  {
    if containers == [] then []
    else
      var n := |containers| - 1;
      assert containers == containers[..n] + [containers[n]];
      InStack(containers[..n], stack) + if containers[n].stack == stack then [containers[n]] else []
  }

  function Resolve(containers: seq<Target>, sc: Schedule, pick: nat): Option<seq<Target>> {
    if sc.containerName == "" then Some(InStack(containers, sc.stack))
    else
      var found := FindByName(containers, sc.containerName, pick);
      if found.Some? then Some([found.value]) else None
  }

  /** With one row per name it does not matter which row a query picks. */
  lemma {:induction false} PickIsMoot(containers: seq<Target>, sc: Schedule, p: nat, q: nat)
    requires UniqueNames(containers)
    ensures Resolve(containers, sc, p) == Resolve(containers, sc, q)
  {
    OneRowPerName(containers, sc.containerName);
  }

  /** Whether the executor updates this target at this time. */
  predicate Applies(table: Table, sc: Schedule, rec: Target, delay: int, t: int) {
    && Eligible(rec) && (rec.id, Scope(sc)) in table
    && !(delay > 0 && t < table[(rec.id, Scope(sc))].detectedAt + delay)
  }

  function PlannedCall(table: Table, sc: Schedule, rec: Target, t: int): Call
    requires (rec.id, Scope(sc)) in table
  {
    Call(sc.id, rec.id, table[(rec.id, Scope(sc))].image, t)
  }

  /** The updates one pass over the targets starts; target i is reached at clock(i). */
  function Plan(table: Table, sc: Schedule, targets: seq<Target>, delay: int, clock: nat -> int): seq<Call> {
    if targets == [] then []
    else
      var n := |targets| - 1;
      Plan(table, sc, targets[..n], delay, clock)
        + if Applies(table, sc, targets[n], delay, clock(n))
          then [PlannedCall(table, sc, targets[n], clock(n))] else []
  }

  function MarkedRow(sc: Schedule, next: Option<int>, t: int): Schedule {
    sc.(lastRunAt := Some(t), nextRunAt := next, enabled := next.Some?)
  }

  function Marked(schedules: seq<Schedule>, id: nat, next: Option<int>, t: int): seq<Schedule> {
    seq(|schedules|, i requires 0 <= i < |schedules| =>
      if schedules[i].id == id then MarkedRow(schedules[i], next, t) else schedules[i])
  }

  /** What marking means: a row marked without a next run is over and never due again, one
      marked with a next run is due exactly from then on, and no other row changes. */
  lemma MarkedMeaning(schedules: seq<Schedule>, id: nat, next: Option<int>, t: int, i: nat, u: int)
    requires i < |schedules|
    ensures var was, row := schedules[i], Marked(schedules, id, next, t)[i];
            if was.id != id then row == was
            else
              && (Due(row, u) <==> next.Some? && next.value <= u)
              && (was.kind == "once" ==> Completed(row))
              && row == was.(lastRunAt := Some(t), nextRunAt := row.nextRunAt, enabled := row.enabled)
  {
  }

  function Touched(schedules: seq<Schedule>, id: nat, t: int): seq<Schedule> {
    seq(|schedules|, i requires 0 <= i < |schedules| =>
      if schedules[i].id == id then schedules[i].(lastRunAt := Some(t)) else schedules[i])
  }

  lemma {:induction false} InStackDistinct(containers: seq<Target>, stack: string)
    requires DistinctContainers(containers)
    ensures DistinctContainers(InStack(containers, stack))
  {
    if containers != [] {
      var n := |containers| - 1;
      InStackDistinct(containers[..n], stack);
      var members := InStack(containers[..n], stack);
      forall i | 0 <= i < |members| ensures members[i].id != containers[n].id {
        var k :| 0 <= k < n && containers[..n][k] == members[i];
      }
    }
  }

  lemma {:induction false} PlanGrows(table: Table, sc: Schedule, targets: seq<Target>, delay: int, clock: nat -> int,
                                     i: nat)
    requires i <= |targets|
    ensures Plan(table, sc, targets[..i], delay, clock) <= Plan(table, sc, targets, delay, clock)
  {
    if i < |targets| {
      var n := |targets| - 1;
      PlanGrows(table, sc, targets[..n], delay, clock, i);
      assert targets[..n][..i] == targets[..i];
    } else {
      assert targets[..i] == targets;
    }
  }

  lemma {:induction false} PlanEmpty(table: Table, sc: Schedule, targets: seq<Target>, delay: int, clock: nat -> int)
    requires forall i | 0 <= i < |targets| :: !Applies(table, sc, targets[i], delay, clock(i))
    ensures Plan(table, sc, targets, delay, clock) == []
  {
    if targets != [] {
      PlanEmpty(table, sc, targets[..|targets| - 1], delay, clock);
    }
  }

  /** Each planned call is for an eligible target whose candidate is old enough. */
  predicate Justified(c: Call, table: Table, sc: Schedule, delay: int) {
    && c.schedule == sc.id && (c.container, Scope(sc)) in table
    && c.image == table[(c.container, Scope(sc))].image
    && (delay > 0 ==> table[(c.container, Scope(sc))].detectedAt + delay <= c.at)
  }

  lemma {:induction false} PlanJustified(table: Table, sc: Schedule, targets: seq<Target>, delay: int,
                                         clock: nat -> int)
    ensures forall c | c in Plan(table, sc, targets, delay, clock) :: Justified(c, table, sc, delay)
  {
    if targets != [] {
      PlanJustified(table, sc, targets[..|targets| - 1], delay, clock);
    }
  }

  predicate SubTable(a: Table, b: Table) {
    forall key | key in a :: key in b && a[key] == b[key]
  }

  /** The candidates of the targets still to come are as they were. */
  ghost predicate Untouched(table: Table, was: Table, targets: seq<Target>) {
    forall k, scope | 0 <= k < |targets| && (targets[k].id, scope) in was :: (targets[k].id, scope) in table
  }

  lemma UntouchedStep(table: Table, was: Table, sc: Schedule, targets: seq<Target>, delay: int, t: int, i: nat)
    requires i < |targets| && DistinctContainers(targets) && SubTable(table, was) && Untouched(table, was, targets[i..])
    ensures Untouched(table, was, targets[i + 1..]) && Untouched(Cleared(table, targets[i].id), was, targets[i + 1..])
    ensures SubTable(Cleared(table, targets[i].id), was)
    ensures Applies(table, sc, targets[i], delay, t) == Applies(was, sc, targets[i], delay, t)
    ensures Applies(was, sc, targets[i], delay, t) ==>
              PlannedCall(table, sc, targets[i], t) == PlannedCall(was, sc, targets[i], t)
  {
  }

  lemma PlanStep(table: Table, sc: Schedule, targets: seq<Target>, delay: int, clock: nat -> int, i: nat)
    requires i < |targets|
    ensures Plan(table, sc, targets[..i + 1], delay, clock) ==
            Plan(table, sc, targets[..i], delay, clock)
              + if Applies(table, sc, targets[i], delay, clock(i))
                then [PlannedCall(table, sc, targets[i], clock(i))] else []
    ensures Plan(table, sc, targets[..i], delay, clock) <= Plan(table, sc, targets[..i + 1], delay, clock)
    ensures Plan(table, sc, targets[..i + 1], delay, clock) <= Plan(table, sc, targets, delay, clock)
  {
    assert targets[..i + 1][..i] == targets[..i];
    PlanGrows(table, sc, targets, delay, clock, i + 1);
  }

  /** After i targets: their plan is carried out, the other candidates are as they were. */
  ghost predicate Progress(table: Table, sc: Schedule, targets: seq<Target>, delay: int, clock: nat -> int, i: nat,
                           candidates: Table, before: seq<Call>, calls: seq<Call>, applied: nat)
    requires i <= |targets|
  {
    && SubTable(candidates, table) && Untouched(candidates, table, targets[i..])
    && applied == |Plan(table, sc, targets[..i], delay, clock)|
    && calls == before + Plan(table, sc, targets[..i], delay, clock)
  }

  lemma ProgressStep(table: Table, sc: Schedule, targets: seq<Target>, delay: int, clock: nat -> int, i: nat,
                     candidates: Table, candidates': Table, before: seq<Call>, calls: seq<Call>, calls': seq<Call>,
                     applied: nat, started: bool)
    requires i < |targets| && DistinctContainers(targets)
    requires Progress(table, sc, targets, delay, clock, i, candidates, before, calls, applied)
    requires candidates' == candidates || candidates' == Cleared(candidates, targets[i].id)
    requires started ==> Applies(table, sc, targets[i], delay, clock(i))
    requires started ==> calls' == calls + [PlannedCall(table, sc, targets[i], clock(i))]
    requires !started ==> calls' == calls
    ensures var plan := Plan(table, sc, targets, delay, clock);
            && applied <= |plan| && calls == before + plan[..applied]
            && (Applies(table, sc, targets[i], delay, clock(i)) ==> applied < |plan|)
    ensures started == Applies(table, sc, targets[i], delay, clock(i)) ==>
              Progress(table, sc, targets, delay, clock, i + 1, candidates', before, calls',
                       applied + if started then 1 else 0)
  {
    PlanStep(table, sc, targets, delay, clock, i);
    UntouchedStep(candidates, table, sc, targets, delay, clock(i), i);
  }

  /** The whole plan of one schedule; none if its targets cannot be resolved. */
  function PlanFor(containers: seq<Target>, table: Table, sc: Schedule, delay: int, clock: nat -> int,
                   pick: nat): seq<Call> {
    var targets := Resolve(containers, sc, pick);
    if targets.Some? then Plan(table, sc, targets.value, delay, clock) else []
  }

  /** A tick's inputs: the maintenance gate, when it started, its clock readings by schedule
      at the retry test and by schedule and target after that, the cron library's next
      run times, and the row each schedule's lookup by name comes back with. */
  datatype Tick = Tick(maintenance: bool, at: int, ready: nat -> int, clock: (nat, nat) -> int,
                       next: nat -> Option<int>, pick: nat -> nat)

  /** The kinds the due tick executes. */
  predicate Runnable(sc: Schedule) {
    sc.kind == "once" || sc.kind == "cron"
  }

  function NextOf(sc: Schedule, tick: Tick): Option<int> {
    if sc.kind == "once" then None else tick.next(sc.id)
  }

  function OnceCall(containers: seq<Target>, sc: Schedule, t: int, pick: nat): seq<Call> {
    var rec := FindByName(containers, sc.containerName, pick);
    if rec.None? then []
    else [Call(sc.id, rec.value.id, if sc.pinnedImage == "" then rec.value.currentImage else sc.pinnedImage, t)]
  }

  function AllDue(schedules: seq<Schedule>, t: int): seq<Schedule> {
    if schedules == [] then []
    else
      var n := |schedules| - 1;
      AllDue(schedules[..n], t) + if Due(schedules[n], t) then [schedules[n]] else []
  }

  function RunnableIds(due: seq<Schedule>): set<nat> {
    set i | 0 <= i < |due| && Runnable(due[i]) :: due[i].id
  }

  function Fired(schedules: seq<Schedule>, fired: set<nat>, tick: Tick): seq<Schedule> {
    seq(|schedules|, i requires 0 <= i < |schedules| =>
      if schedules[i].id in fired then MarkedRow(schedules[i], NextOf(schedules[i], tick), tick.at) else schedules[i])
  }

  lemma FiredNone(schedules: seq<Schedule>, tick: Tick)
    ensures Fired(schedules, {}, tick) == schedules
  {
  }

  lemma {:induction false} AllDueFacts(schedules: seq<Schedule>, t: int)
    ensures forall sc :: sc in AllDue(schedules, t) <==> sc in schedules && Due(sc, t)
    ensures DistinctSchedules(schedules) ==> DistinctSchedules(AllDue(schedules, t))
  {
    if schedules != [] {
      var n := |schedules| - 1;
      AllDueFacts(schedules[..n], t);
      assert schedules == schedules[..n] + [schedules[n]];
      var due := AllDue(schedules[..n], t);
      if DistinctSchedules(schedules) {
        forall i | 0 <= i < |due| ensures due[i].id != schedules[n].id {
          assert due[i] in schedules[..n];
        }
      }
    }
  }

  lemma {:induction false} NoneDue(schedules: seq<Schedule>, t: int)
    requires forall i | 0 <= i < |schedules| :: !Due(schedules[i], t)
    ensures AllDue(schedules, t) == []
  {
    if schedules != [] {
      NoneDue(schedules[..|schedules| - 1], t);
    }
  }

  /** The calls made since `start` all belong to these schedules. */
  ghost predicate CallsOf(start: seq<Call>, calls: seq<Call>, ids: set<nat>) {
    start <= calls && forall c | c in calls[|start|..] :: c.schedule in ids
  }

  lemma CallsOfStep(start: seq<Call>, before: seq<Call>, calls: seq<Call>, ids: set<nat>, more: set<nat>)
    requires CallsOf(start, before, ids) && CallsOf(before, calls, more)
    ensures CallsOf(start, calls, ids + more)
  {
  }

  lemma RunnableIdsStep(due: seq<Schedule>, d: nat)
    requires d < |due| && DistinctSchedules(due)
    ensures RunnableIds(due[..d + 1]) == RunnableIds(due[..d]) + if Runnable(due[d]) then {due[d].id} else {}
    ensures due[d].id !in RunnableIds(due[..d])
  {
  }

  lemma FiredStep(schedules: seq<Schedule>, fired: set<nat>, tick: Tick, sc: Schedule)
    requires DistinctSchedules(schedules) && sc in schedules && sc.id !in fired
    ensures Marked(Fired(schedules, fired, tick), sc.id, NextOf(sc, tick), tick.at)
         == Fired(schedules, fired + {sc.id}, tick)
  {
  }

  lemma PlanForJustified(containers: seq<Target>, table: Table, sc: Schedule, delay: int, clock: nat -> int, pick: nat)
    ensures forall c | c in PlanFor(containers, table, sc, delay, clock, pick) :: Justified(c, table, sc, delay)
  {
    if Resolve(containers, sc, pick).Some? {
      PlanJustified(table, sc, Resolve(containers, sc, pick).value, delay, clock);
    }
  }

  // Relative policies.

  /** What the scheduler reads: the tables, and the check interval that paces retries. */
  datatype View = View(schedules: seq<Schedule>, containers: seq<Target>, table: Table, interval: int)

  /** The relative policy starts an update of its k-th target: `ready` is the time of its
      retry test, `t` the time it reaches the target. */
  ghost predicate StartsAt(v: View, sc: Schedule, pick: nat, k: nat, ready: int, t: int) {
    var targets := Resolve(v.containers, sc, pick);
    && sc.enabled && sc.kind == "relative" && RetryReady(sc.lastRunAt, v.interval, ready) && Delay(sc).Some?
    && targets.Some? && k < |targets.value| && Applies(v.table, sc, targets.value[k], Delay(sc).value, t)
  }

  /** The policy would start nothing in this tick. */
  ghost predicate QuietPolicy(v: View, sc: Schedule, tick: Tick) {
    forall k: nat :: !StartsAt(v, sc, tick.pick(sc.id), k, tick.ready(sc.id), tick.clock(sc.id, k))
  }

  ghost predicate RelativeQuiet(v: View, tick: Tick) {
    forall i | 0 <= i < |v.schedules| :: QuietPolicy(v, v.schedules[i], tick)
  }

  ghost predicate JustifiedBySome(c: Call, schedules: seq<Schedule>, table: Table) {
    exists i | 0 <= i < |schedules| ::
      && schedules[i].enabled && schedules[i].kind == "relative" && Delay(schedules[i]).Some?
      && Justified(c, table, schedules[i], Delay(schedules[i]).value)
  }

  /** So is every call made since. */
  ghost predicate JustifiedSince(first: seq<Call>, calls: seq<Call>, schedules: seq<Schedule>, table: Table) {
    first <= calls && forall c | c in calls[|first|..] :: JustifiedBySome(c, schedules, table)
  }

  lemma QuietPlan(v: View, sc: Schedule, tick: Tick, clock: nat -> int)
    requires QuietPolicy(v, sc, tick) && forall k: nat :: clock(k) == tick.clock(sc.id, k)
    requires sc.enabled && sc.kind == "relative" && RetryReady(sc.lastRunAt, v.interval, tick.ready(sc.id))
    requires Delay(sc).Some?
    ensures PlanFor(v.containers, v.table, sc, Delay(sc).value, clock, tick.pick(sc.id)) == []
  {
    var targets := Resolve(v.containers, sc, tick.pick(sc.id));
    if targets.Some? {
      forall k | 0 <= k < |targets.value| ensures !Applies(v.table, sc, targets.value[k], Delay(sc).value, clock(k)) {
        assert !StartsAt(v, sc, tick.pick(sc.id), k, tick.ready(sc.id), tick.clock(sc.id, k));
      }
      PlanEmpty(v.table, sc, targets.value, Delay(sc).value, clock);
    }
  }

  lemma JustifiedBySubTable(c: Call, a: Table, b: Table, sc: Schedule, delay: int)
    requires SubTable(a, b) && Justified(c, a, sc, delay)
    ensures Justified(c, b, sc, delay)
  {
  }

  /** A delayed policy's update goes to an image that every recorded check of the
      container since at least the delay ago chose. */
  lemma {:induction false} DelayedUpdateWasStable(history: seq<Event>, c: Call, sc: Schedule, delay: int)
    returns (k: nat)
    requires WellFormed(history) && Scope(sc) in SCOPES && delay > 0 && Justified(c, After(history), sc, delay)
    ensures k < |history| && history[k].Refresh? && history[k].id == c.container && history[k].at <= c.at - delay
    ensures forall j | k <= j < |history| && history[j].id == c.container ::
              Chose(history[j], c.container, Scope(sc), c.image)
  {
    k := DelayedImageWasStable(history, c.container, Scope(sc), c.at, delay);
  }

  // What a tick makes of each schedule.

  /** The tick's later clock readings for one schedule. */
  function ClockOf(tick: Tick, id: nat): nat -> int {
    (k: nat) => tick.clock(id, k)
  }

  /** The updates a relative policy starts in its turn, unless the gate stops it. */
  function PolicyPlan(v: View, sc: Schedule, tick: Tick): seq<Call> {
    if sc.enabled && sc.kind == "relative" && RetryReady(sc.lastRunAt, v.interval, tick.ready(sc.id)) && Delay(sc).Some?
    then PlanFor(v.containers, v.table, sc, Delay(sc).value, ClockOf(tick, sc.id), tick.pick(sc.id))
    else []
  }

  /** The updates a due schedule starts in its turn, unless the gate stops it. */
  function DuePlan(v: View, sc: Schedule, tick: Tick): seq<Call> {
    if sc.kind == "once" then OnceCall(v.containers, sc, tick.at, tick.pick(sc.id))
    else if sc.kind == "cron" then PlanFor(v.containers, v.table, sc, 0, ClockOf(tick, sc.id), tick.pick(sc.id))
    else []
  }

  /** The calls a schedule is to make for the tables it finds. */
  type Planner = (View, Schedule) -> seq<Call>

  function PolicyPlanner(tick: Tick): Planner {
    (v: View, sc: Schedule) => PolicyPlan(v, sc, tick)
  }

  function DuePlanner(tick: Tick): Planner {
    (v: View, sc: Schedule) => DuePlan(v, sc, tick)
  }

  /** One schedule's turn: the tables it found and the calls it made. */
  datatype Turn = Turn(view: View, made: seq<Call>)

  function Made(turns: seq<Turn>): seq<Call> {
    if turns == [] then [] else Made(turns[..|turns| - 1]) + turns[|turns| - 1].made
  }

  lemma MadeStep(turns: seq<Turn>, turn: Turn)
    ensures Made(turns + [turn]) == Made(turns) + turn.made
  {
    assert (turns + [turn])[..|turns|] == turns;
  }

  /** The turns of a relative tick, newest schedule first: each policy carries out its plan
      for the tables it finds; only the one that meets the gate stops short, and it is the
      last. */
  ghost predicate RelativeTurns(v: View, turns: seq<Turn>, plan: Planner, paused: bool) {
    && |turns| <= |v.schedules|
    && (turns != [] ==> turns[0].view == v)
    && (forall j | 0 <= j < |turns| && !(paused && j == |turns| - 1) ::
          turns[j].made == plan(turns[j].view, ListedAt(v, j)))
    && (paused ==> turns != [] && turns[|turns| - 1].made < plan(turns[|turns| - 1].view, ListedAt(v, |turns| - 1)))
    && (forall j | 0 <= j < |turns| - 1 && turns[j].made == [] :: turns[j + 1].view == turns[j].view)
  }

  /** ListSchedules returns the newest first. */
  function ListedAt(v: View, j: nat): Schedule
    requires j < |v.schedules|
  {
    v.schedules[|v.schedules| - 1 - j]
  }

  /** The turns of a due tick, in the order of the due list: each schedule makes its planned
      calls, or the first of them when it is refused. */
  ghost predicate DueTurns(v: View, due: seq<Schedule>, turns: seq<Turn>, plan: Planner, refused: set<nat>) {
    && |turns| <= |due|
    && (turns != [] ==> turns[0].view == v)
    && (forall d | 0 <= d < |turns| :: DueTurn(turns[d], plan(turns[d].view, due[d]), due[d].id in refused))
  }

  predicate DueTurn(turn: Turn, planned: seq<Call>, refused: bool) {
    turn.made <= planned && (!refused ==> turn.made == planned)
  }

  /** One target's start, spelt out: flagged and not excluded, with a candidate in the
      policy's scope, and the delay, if there is one, over. */
  ghost predicate TargetStarts(v: View, sc: Schedule, rec: Target, t: int, c: Call) {
    var key := (rec.id, if sc.semverPolicy == "" then "major" else sc.semverPolicy);
    && rec.updateAvailable && !rec.excluded && key in v.table
    && (sc.relativePolicy == "delayed" ==>
          && sc.relativeAfter.Some?
          && (sc.relativeAfter.value <= 0 || t >= v.table[key].detectedAt + sc.relativeAfter.value))
    && c == Call(sc.id, rec.id, v.table[key].image, t)
  }

  lemma {:induction false} PlanMembers(table: Table, sc: Schedule, targets: seq<Target>, delay: int,
                                       clock: nat -> int, c: Call)
    ensures c in Plan(table, sc, targets, delay, clock) <==>
              exists k | 0 <= k < |targets| ::
                Applies(table, sc, targets[k], delay, clock(k)) && c == PlannedCall(table, sc, targets[k], clock(k))
  {
    if targets != [] {
      var n := |targets| - 1;
      PlanMembers(table, sc, targets[..n], delay, clock, c);
      assert forall k | 0 <= k < n :: targets[..n][k] == targets[k];
    }
  }

  /** A policy's plan holds exactly the starts of its targets, if it is enabled, relative
      and past its retry interval. */
  lemma {:induction false} PolicyStartsExactly(v: View, sc: Schedule, tick: Tick, c: Call)
    ensures c in PolicyPlan(v, sc, tick) <==>
              && sc.enabled && sc.kind == "relative"
              && (sc.lastRunAt == None || tick.ready(sc.id) >= sc.lastRunAt.value + v.interval)
              && Resolve(v.containers, sc, tick.pick(sc.id)).Some?
              && var targets := Resolve(v.containers, sc, tick.pick(sc.id)).value;
                 exists k | 0 <= k < |targets| :: TargetStarts(v, sc, targets[k], tick.clock(sc.id, k), c)
  {
    var targets := Resolve(v.containers, sc, tick.pick(sc.id));
    var clock := ClockOf(tick, sc.id);
    if targets.Some? && Delay(sc).Some? {
      PlanMembers(v.table, sc, targets.value, Delay(sc).value, clock, c);
      forall k | 0 <= k < |targets.value|
        ensures TargetStarts(v, sc, targets.value[k], clock(k), c) <==>
                  && Applies(v.table, sc, targets.value[k], Delay(sc).value, clock(k))
                  && c == PlannedCall(v.table, sc, targets.value[k], clock(k))
      {
      }
    }
  }

  /** A cron schedule's plan holds exactly the starts of its targets, without any delay. */
  lemma {:induction false} CronStartsExactly(v: View, sc: Schedule, tick: Tick, c: Call)
    requires sc.kind == "cron"
    ensures c in DuePlan(v, sc, tick) <==>
              && Resolve(v.containers, sc, tick.pick(sc.id)).Some?
              && var targets := Resolve(v.containers, sc, tick.pick(sc.id)).value;
                 exists k | 0 <= k < |targets| ::
                   TargetStarts(v, sc.(relativePolicy := ""), targets[k], tick.clock(sc.id, k), c)
  {
    var targets := Resolve(v.containers, sc, tick.pick(sc.id));
    var clock := ClockOf(tick, sc.id);
    if targets.Some? {
      PlanMembers(v.table, sc, targets.value, 0, clock, c);
      forall k | 0 <= k < |targets.value|
        ensures TargetStarts(v, sc.(relativePolicy := ""), targets.value[k], clock(k), c) <==>
                  && Applies(v.table, sc, targets.value[k], 0, clock(k))
                  && c == PlannedCall(v.table, sc, targets.value[k], clock(k))
      {
      }
    }
  }

  /** Whatever starts is planned: a target that starts in this tick has its call in the plan. */
  lemma {:induction false} StartIsPlanned(v: View, sc: Schedule, tick: Tick, k: nat)
    requires StartsAt(v, sc, tick.pick(sc.id), k, tick.ready(sc.id), tick.clock(sc.id, k))
    ensures var rec := Resolve(v.containers, sc, tick.pick(sc.id)).value[k];
            Call(sc.id, rec.id, v.table[(rec.id, Scope(sc))].image, tick.clock(sc.id, k)) in PolicyPlan(v, sc, tick)
  {
    var rec := Resolve(v.containers, sc, tick.pick(sc.id)).value[k];
    var c := Call(sc.id, rec.id, v.table[(rec.id, Scope(sc))].image, tick.clock(sc.id, k));
    PlanMembers(v.table, sc, Resolve(v.containers, sc, tick.pick(sc.id)).value, Delay(sc).value,
                ClockOf(tick, sc.id), c);
    assert ClockOf(tick, sc.id)(k) == tick.clock(sc.id, k);
  }

  /** The targets of a schedule: one row of its container's name, or exactly its stack. */
  lemma {:induction false} ResolveMeaning(containers: seq<Target>, sc: Schedule, pick: nat, rec: Target)
    ensures sc.containerName == "" ==>
              && Resolve(containers, sc, pick).Some?
              && (rec in Resolve(containers, sc, pick).value <==> rec in containers && rec.stack == sc.stack)
    ensures sc.containerName != "" ==>
              (Resolve(containers, sc, pick).None? <==> forall r | r in containers :: r.name != sc.containerName)
    ensures sc.containerName != "" && Resolve(containers, sc, pick).Some? ==>
              var targets := Resolve(containers, sc, pick).value;
              |targets| == 1 && targets[0] in containers && targets[0].name == sc.containerName
  {
  }

  /** A one-off schedule makes one call, to its pinned image or else the recorded one. */
  lemma {:induction false} OnceCallMeaning(containers: seq<Target>, sc: Schedule, t: int, pick: nat)
    ensures var calls := OnceCall(containers, sc, t, pick);
            && |calls| <= 1 && (calls == [] <==> forall r | r in containers :: r.name != sc.containerName)
            && (calls != [] ==>
                  exists rec | rec in containers && rec.name == sc.containerName ::
                    && calls[0].schedule == sc.id && calls[0].container == rec.id && calls[0].at == t
                    && (sc.pinnedImage != "" ==> calls[0].image == sc.pinnedImage)
                    && (sc.pinnedImage == "" ==> calls[0].image == rec.currentImage))
  {
  }

  /** A fired one-off is over; a fired cron row has the library's next run, or is switched
      off without one; every other row is as it was. */
  lemma FiredMeaning(schedules: seq<Schedule>, fired: set<nat>, tick: Tick, i: nat)
    requires i < |schedules|
    ensures var was, row := schedules[i], Fired(schedules, fired, tick)[i];
            if was.id !in fired then row == was
            else
              && row.lastRunAt == Some(tick.at) && row.enabled == row.nextRunAt.Some?
              && row.nextRunAt == (if was.kind == "once" then None else tick.next(was.id))
              && row == was.(lastRunAt := row.lastRunAt, nextRunAt := row.nextRunAt, enabled := row.enabled)
  {
  }

  /** A touched policy has just run; nothing else about it, and no other row, changes. */
  lemma TouchedMeaning(schedules: seq<Schedule>, id: nat, t: int, i: nat, interval: int, u: int)
    requires i < |schedules|
    ensures var was, row := schedules[i], Touched(schedules, id, t)[i];
            if was.id != id then row == was
            else
              && row == was.(lastRunAt := row.lastRunAt)
              && (RetryReady(row.lastRunAt, interval, u) <==> u >= t + interval)
  {
  }

  // The self-update safety check.

  /** The target gives no reason to wait. Candidate lookups that fail are skipped. */
  predicate ClearTarget(table: Table, sc: Schedule, rec: Target, now: int, horizon: int, unreadable: set<Key>) {
    Eligible(rec) ==>
      if sc.relativePolicy != "delayed" then now > horizon
      else
        && sc.relativeAfter.Some?
        && var key := (rec.id, Scope(sc));
           key in table && key !in unreadable ==> table[key].detectedAt + sc.relativeAfter.value > horizon
  }

  predicate ClearTargets(table: Table, sc: Schedule, targets: seq<Target>, now: int, horizon: int,
                         unreadable: set<Key>) {
    forall k | 0 <= k < |targets| :: ClearTarget(table, sc, targets[k], now, horizon, unreadable)
  }

  /** What the check's queries come back with: the candidate lookups that fail, and the
      row each schedule's lookup by name picks. */
  datatype Reads = Reads(unreadable: set<Key>, pick: nat -> nat)

  predicate ClearSchedule(v: View, sc: Schedule, now: int, horizon: int, read: Reads) {
    var targets := Resolve(v.containers, sc, read.pick(sc.id));
    sc.enabled ==>
      && !Due(sc, horizon)
      && (sc.kind == "relative" ==>
            targets.Some? && ClearTargets(v.table, sc, targets.value, now, horizon, read.unreadable))
  }

  predicate AllClear(v: View, now: int, horizon: int, read: Reads) {
    forall i | 0 <= i < |v.schedules| :: ClearSchedule(v, v.schedules[i], now, horizon, read)
  }

  /** Clear, with every candidate lookup working, of the schedules whose retry interval
      will be over by the horizon. */
  predicate ReadyClear(v: View, now: int, horizon: int, read: Reads) {
    forall i | 0 <= i < |v.schedules| && RetryReady(v.schedules[i].lastRunAt, v.interval, horizon) ::
      ClearSchedule(v, v.schedules[i], now, horizon, read.(unreadable := {}))
  }

  predicate NothingDetectedAfter(table: Table, now: int) {
    forall key | key in table :: table[key].detectedAt <= now
  }

  predicate Between(now: int, t: int, horizon: int) {
    now <= t <= horizon
  }

  /** No relative policy starts an update from now to the horizon. */
  ghost predicate NeverStarts(v: View, now: int, horizon: int) {
    forall i, pick: nat, k: nat, ready, t |
      0 <= i < |v.schedules| && Between(now, ready, horizon) && Between(now, t, horizon) ::
      !StartsAt(v, v.schedules[i], pick, k, ready, t)
  }

  /** Between the check and the horizon nothing falls due, and a relative policy could
      start only an update whose candidate lookup failed in the check. */
  lemma {:induction false} ClearMeansQuiet(v: View, sc: Schedule, now: int, horizon: int, read: Reads,
                                           pick: nat, k: nat, ready: int, t: int)
    requires ClearSchedule(v, sc, now, horizon, read) && NothingDetectedAfter(v.table, now)
    requires UniqueNames(v.containers) && Between(now, t, horizon)
    ensures !Due(sc, t)
    ensures StartsAt(v, sc, pick, k, ready, t) ==>
              (Resolve(v.containers, sc, pick).value[k].id, Scope(sc)) in read.unreadable
  {
    PickIsMoot(v.containers, sc, pick, read.pick(sc.id));
  }

  /** After a check that found nothing, no update starts before the horizon if and only if
      the check would have found nothing with every candidate lookup working, among the
      schedules whose retry interval is over by the horizon. */
  lemma {:induction false} SafetyIsExact(v: View, now: int, horizon: int, read: Reads)
    requires AllClear(v, now, horizon, read) && NothingDetectedAfter(v.table, now)
    requires now <= horizon && UniqueNames(v.containers)
    ensures NeverStarts(v, now, horizon) <==> ReadyClear(v, now, horizon, read)
  {
    var all := read.(unreadable := {});
    if ReadyClear(v, now, horizon, read) {
      forall i, pick: nat, k: nat, ready, t |
        0 <= i < |v.schedules| && Between(now, ready, horizon) && Between(now, t, horizon)
        ensures !StartsAt(v, v.schedules[i], pick, k, ready, t)
      {
        if RetryReady(v.schedules[i].lastRunAt, v.interval, horizon) {
          ClearMeansQuiet(v, v.schedules[i], now, horizon, all, pick, k, ready, t);
        }
      }
    } else {
      var i :| 0 <= i < |v.schedules| && RetryReady(v.schedules[i].lastRunAt, v.interval, horizon)
               && !ClearSchedule(v, v.schedules[i], now, horizon, all);
      HiddenUpdateStarts(v, v.schedules[i], now, horizon, read);
    }
  }

  /** What only a failed lookup hid has started by the horizon, once it may be retried. */
  lemma {:induction false} HiddenUpdateStarts(v: View, sc: Schedule, now: int, horizon: int, read: Reads)
    requires ClearSchedule(v, sc, now, horizon, read) && now <= horizon
    requires RetryReady(sc.lastRunAt, v.interval, horizon)
    requires !ClearSchedule(v, sc, now, horizon, read.(unreadable := {}))
    ensures exists k: nat :: StartsAt(v, sc, read.pick(sc.id), k, horizon, horizon) && Between(now, horizon, horizon)
  {
    var targets := Resolve(v.containers, sc, read.pick(sc.id)).value;
    var k :| 0 <= k < |targets| && !ClearTarget(v.table, sc, targets[k], now, horizon, {});
    assert ClearTarget(v.table, sc, targets[k], now, horizon, read.unreadable);
    assert StartsAt(v, sc, read.pick(sc.id), k, horizon, horizon);
  }

  /** A failed lookup does hide an update that is already due, whenever its policy may run. */
  lemma {:induction false} SilentLookupFailure(sc: Schedule, rec: Target, candidate: Candidate, interval: int,
                                               now: int, horizon: int)
    requires sc.enabled && sc.kind == "relative" && sc.containerName == rec.name != "" && sc.nextRunAt.None?
    requires sc.relativePolicy == "delayed" && sc.relativeAfter.Some? && Eligible(rec)
    requires candidate.detectedAt + sc.relativeAfter.value <= now <= horizon
    ensures var key := (rec.id, Scope(sc));
            var v := View([sc], [rec], map[key := candidate], interval);
            && AllClear(v, now, horizon, Reads({key}, _ => 0))
            && (StartsAt(v, sc, 0, 0, now, now) <==> RetryReady(sc.lastRunAt, interval, now))
  {
    OnlyRow(rec, sc, 0);
  }

  lemma {:induction false} OnlyRow(rec: Target, sc: Schedule, pick: nat)
    requires sc.containerName == rec.name != ""
    ensures Resolve([rec], sc, pick) == Some([rec])
  {
    assert Named([rec][..0], rec.name) == [];
    assert Named([rec], rec.name) == [rec];
  }

  /** And with two rows of one name the check may look at the stale one and the executor
      at the other, so unique names are needed. */
  lemma StaleRowHidesUpdate(sc: Schedule, stale: Target, live: Target, candidate: Candidate, interval: int, now: int)
    requires sc.enabled && sc.kind == "relative" && sc.nextRunAt.None? && sc.relativePolicy != "delayed"
    requires sc.containerName == stale.name == live.name != "" && !Eligible(stale) && Eligible(live)
    ensures var v := View([sc], [stale, live], map[(live.id, Scope(sc)) := candidate], interval);
            && AllClear(v, now, now, Reads({}, _ => 0))
            && (StartsAt(v, sc, 1, 0, now, now) <==> RetryReady(sc.lastRunAt, interval, now))
  {
    var rows := [stale, live];
    assert rows[..1] == [stale] && [stale][..0] == [];
    assert Named([stale], sc.containerName) == [stale];
    assert Named(rows, sc.containerName) == rows;
    assert Resolve(rows, sc, 0) == Some([stale]) && Resolve(rows, sc, 1) == Some([live]);
  }

  /** The check compares times, the due test their texts. So the last second before the
      horizon is not covered: a schedule the check cleared is picked up at a time up to the
      horizon exactly when both lie in one second and their fractions nest. */
  lemma {:induction false} TextDueAfterCheck(v: View, now: int, horizon: int, read: Reads, i: nat,
                                             next: Timestamps.Instant, t: Timestamps.Instant)
    requires AllClear(v, now, horizon, read) && i < |v.schedules| && v.schedules[i].enabled
    requires v.schedules[i].nextRunAt == Some(Timestamps.Nanos(next))
    requires Timestamps.Valid(next) && Timestamps.Valid(t) && Timestamps.Nanos(t) <= horizon
    ensures Timestamps.SqlAtMost(next, t) <==>
              && Timestamps.Seconds(next) == Timestamps.Seconds(t)
              && Timestamps.Nested(Timestamps.Fraction(next.nano), Timestamps.Fraction(t.nano))
    ensures Timestamps.Nanos(t) + Timestamps.NANOS_PER_SECOND <= horizon ==> !Timestamps.SqlAtMost(next, t)
  {
    assert ClearSchedule(v, v.schedules[i], now, horizon, read);
    Timestamps.SqlTestIsOffByLessThanASecond(next, t);
  }

  // Blockers.

  /** The check reports this blocker for the schedule, or for its k-th target. */
  ghost predicate Reported(b: Blocker, v: View, sc: Schedule, k: nat, now: int, horizon: int, read: Reads) {
    sc.enabled &&
    match b
    case RollbackPending(_) => false
    case ScheduleDue(id, at) => id == sc.id && sc.nextRunAt == Some(at) && at <= horizon
    case RelativeDue(id, name, at) =>
      var targets := Resolve(v.containers, sc, read.pick(sc.id));
      && id == sc.id && sc.kind == "relative" && at <= horizon && targets.Some? && k < |targets.value|
      && targets.value[k].name == name && DueTime(v.table, sc, targets.value[k], now) == Some(at)
  }

  /** When the check expects the target's update. */
  function DueTime(table: Table, sc: Schedule, rec: Target, now: int): Option<int> {
    if !Eligible(rec) then None
    else if sc.relativePolicy != "delayed" then Some(now)
    else if sc.relativeAfter.Some? && (rec.id, Scope(sc)) in table
    then Some(table[(rec.id, Scope(sc))].detectedAt + sc.relativeAfter.value)
    else None
  }

  /** The schedule falls due, or its k-th target's update starts, by the horizon. */
  ghost predicate Genuine(b: Blocker, v: View, sc: Schedule, k: nat, now: int, horizon: int, read: Reads) {
    if b.ScheduleDue? then exists t :: Between(now, t, horizon) && Due(sc, t)
    else
      exists ready, t ::
        && Between(now, ready, horizon) && Between(now, t, horizon)
        && StartsAt(v, sc, read.pick(sc.id), k, ready, t)
  }

  /** A reported schedule is genuine. A reported target is genuine if and only if it has a
      candidate and its policy may run again by the horizon; otherwise it is a false
      alarm. Only an immediate policy reports a target without a candidate. */
  lemma {:induction false} GenuineUnlessFalseAlarm(b: Blocker, v: View, sc: Schedule, k: nat, now: int, horizon: int,
                                                   read: Reads)
    requires Reported(b, v, sc, k, now, horizon, read) && now <= horizon
    ensures b.ScheduleDue? ==> Genuine(b, v, sc, k, now, horizon, read)
    ensures b.RelativeDue? ==>
              var key := (Resolve(v.containers, sc, read.pick(sc.id)).value[k].id, Scope(sc));
              && (Genuine(b, v, sc, k, now, horizon, read) <==>
                    key in v.table && RetryReady(sc.lastRunAt, v.interval, horizon))
              && (key !in v.table ==> sc.relativePolicy != "delayed")
  {
    assert Between(now, horizon, horizon);
    if b.ScheduleDue? {
      assert Due(sc, horizon);
    } else if (Resolve(v.containers, sc, read.pick(sc.id)).value[k].id, Scope(sc)) in v.table
              && RetryReady(sc.lastRunAt, v.interval, horizon) {
      assert StartsAt(v, sc, read.pick(sc.id), k, horizon, horizon);
    }
  }

  /** False alarms occur: a rollback flags an update on a container that has no candidate
      yet, and an immediate policy for it blocks while it can start nothing. */
  lemma {:induction false} FalseAlarmWithoutCandidate(sc: Schedule, rec: Target, table: Table, interval: int,
                                                      now: int, horizon: int, read: Reads)
    requires sc.enabled && sc.kind == "relative" && sc.containerName == rec.name != "" && sc.relativePolicy != "delayed"
    requires Eligible(rec) && (rec.id, Scope(sc)) !in table && now <= horizon
    ensures var v := View([sc], [rec], table, interval);
            && Reported(RelativeDue(sc.id, rec.name, now), v, sc, 0, now, horizon, read)
            && forall pick: nat, k: nat, ready, t :: !StartsAt(v, sc, pick, k, ready, t)
  {
    var v := View([sc], [rec], table, interval);
    forall pick: nat, k: nat, ready, t ensures !StartsAt(v, sc, pick, k, ready, t) {
      OnlyRow(rec, sc, pick);
    }
    OnlyRow(rec, sc, read.pick(sc.id));
  }

  /** And so they do after a failed update, which leaves the candidate and marks the policy
      as having run: until its interval is over it blocks and starts nothing. */
  lemma {:induction false} FalseAlarmBeforeRetry(sc: Schedule, rec: Target, table: Table, interval: int, last: int,
                                                 now: int, horizon: int, read: Reads)
    requires sc.enabled && sc.kind == "relative" && sc.containerName == rec.name != "" && sc.relativePolicy != "delayed"
    requires Eligible(rec) && sc.lastRunAt == Some(last) && now <= horizon < last + interval
    ensures var v := View([sc], [rec], table, interval);
            && Reported(RelativeDue(sc.id, rec.name, now), v, sc, 0, now, horizon, read)
            && NeverStarts(v, now, horizon)
  {
    OnlyRow(rec, sc, read.pick(sc.id));
  }

  // Ticks.

  /** Every clock reading of the tick lies in the interval. */
  ghost predicate Within(tick: Tick, now: int, horizon: int) {
    && Between(now, tick.at, horizon)
    && (forall i: nat :: Between(now, tick.ready(i), horizon))
    && (forall i: nat, k: nat :: Between(now, tick.clock(i, k), horizon))
  }

  lemma {:induction false} ClearMeansQuietTick(v: View, now: int, horizon: int, read: Reads, tick: Tick)
    requires AllClear(v, now, horizon, read) && ReadyClear(v, now, horizon, read)
    requires NothingDetectedAfter(v.table, now) && UniqueNames(v.containers) && Within(tick, now, horizon)
    ensures AllDue(v.schedules, tick.at) == [] && RelativeQuiet(v, tick)
  {
    forall i | 0 <= i < |v.schedules| ensures !Due(v.schedules[i], tick.at) {
      ClearMeansQuiet(v, v.schedules[i], now, horizon, read, 0, 0, tick.at, tick.at);
    }
    NoneDue(v.schedules, tick.at);
    SafetyIsExact(v, now, horizon, read);
  }

  /** A relative tick between two turns: what was called and where the tables stand. */
  ghost predicate MidTick(start: View, first: seq<Call>, turns: seq<Turn>, v: View, calls: seq<Call>) {
    && SubTable(v.table, start.table) && calls == first + Made(turns)
    && (calls == first || turns == [] ==> v == start)
    && (turns != [] && turns[|turns| - 1].made == [] ==> v == turns[|turns| - 1].view)
  }

  lemma RelativeTurnsStep(v: View, turns: seq<Turn>, turn: Turn, plan: Planner, paused: bool)
    requires RelativeTurns(v, turns, plan, false) && |turns| < |v.schedules|
    requires turns == [] ==> turn.view == v
    requires turns != [] && turns[|turns| - 1].made == [] ==> turn.view == turns[|turns| - 1].view
    requires turn.made <= plan(turn.view, ListedAt(v, |turns|))
    requires paused <==> turn.made != plan(turn.view, ListedAt(v, |turns|))
    ensures RelativeTurns(v, turns + [turn], plan, paused)
  {
    var more := turns + [turn];
    assert forall j | 0 <= j < |turns| :: more[j] == turns[j];
    assert more[|turns|] == turn;
  }

  lemma NextTurn(start: View, first: seq<Call>, turns: seq<Turn>, v: View, calls: seq<Call>, v': View,
                 calls': seq<Call>, turn: Turn)
    requires MidTick(start, first, turns, v, calls)
    requires calls <= calls' && SubTable(v'.table, v.table) && (calls' == calls ==> v' == v)
    requires turn == Turn(v, calls'[|calls|..])
    ensures MidTick(start, first, turns + [turn], v', calls')
  {
    MadeStep(turns, turn);
    assert calls' == calls + turn.made;
    assert (turns + [turn])[|turns + [turn]| - 1] == turn;
    if calls' == first {
      assert |calls'| == |first| + |Made(turns)| + |turn.made|;
      assert calls' == calls;
    }
  }

  /** What one policy's turn does to the tables and the calls. */
  ghost predicate TookPolicyTurn(v: View, calls: seq<Call>, v': View, calls': seq<Call>, sc: Schedule, plan: Planner,
                                 paused: bool) {
    && SubTable(v'.table, v.table) && (calls' == calls ==> v' == v)
    && calls <= calls' && calls'[|calls|..] <= plan(v, sc)
    && (paused <==> calls'[|calls|..] != plan(v, sc))
    && JustifiedSince(calls, calls', [sc], v.table)
  }

  ghost predicate MidRelative(start: View, first: seq<Call>, plan: Planner, turns: seq<Turn>, v: View, calls: seq<Call>,
                              paused: bool) {
    && MidTick(start, first, turns, v, calls) && RelativeTurns(start, turns, plan, paused)
    && JustifiedSince(first, calls, start.schedules, start.table)
  }

  lemma RelativeStep(start: View, first: seq<Call>, plan: Planner, turns: seq<Turn>, v: View, calls: seq<Call>,
                     v': View, calls': seq<Call>, paused: bool)
    requires MidRelative(start, first, plan, turns, v, calls, false) && |turns| < |start.schedules|
    requires TookPolicyTurn(v, calls, v', calls', ListedAt(start, |turns|), plan, paused)
    ensures MidRelative(start, first, plan, turns + [Turn(v, calls'[|calls|..])], v', calls', paused)
  {
    var turn := Turn(v, calls'[|calls|..]);
    NextTurn(start, first, turns, v, calls, v', calls', turn);
    RelativeTurnsStep(start, turns, turn, plan, paused);
    NewCallsJustified(first, calls, calls', start.schedules, |start.schedules| - 1 - |turns|, v.table, start.table);
  }

  lemma DueTurnsStep(v: View, due: seq<Schedule>, turns: seq<Turn>, turn: Turn, plan: Planner,
                     refused: set<nat>, no: bool)
    requires DueTurns(v, due, turns, plan, refused) && |turns| < |due| && DistinctSchedules(due)
    requires turns == [] ==> turn.view == v
    requires due[|turns|].id !in refused && DueTurn(turn, plan(turn.view, due[|turns|]), no)
    ensures DueTurns(v, due, turns + [turn], plan, if no then refused + {due[|turns|].id} else refused)
  {
    var more, refused' := turns + [turn], if no then refused + {due[|turns|].id} else refused;
    forall d | 0 <= d < |more| ensures DueTurn(more[d], plan(more[d].view, due[d]), due[d].id in refused') {
      if d < |turns| {
        assert more[d] == turns[d] && DueTurn(turns[d], plan(turns[d].view, due[d]), due[d].id in refused);
      }
    }
  }

  /** A due tick between two turns. */
  ghost predicate MidDue(start: View, first: seq<Call>, due: seq<Schedule>, tick: Tick, plan: Planner,
                         fired: set<nat>, refused: set<nat>, turns: seq<Turn>, v: View, calls: seq<Call>) {
    && DueTurns(start, due, turns, plan, refused) && calls == first + Made(turns)
    && v.schedules == Fired(start.schedules, fired, tick)
    && fired !! refused && fired + refused == RunnableIds(due[..|turns|])
    && CallsOf(first, calls, fired + refused)
    && (fired + refused == {} ==> v == start && calls == first)
  }

  /** What one turn of a due schedule does to the tables and the calls. */
  ghost predicate TookTurn(v: View, calls: seq<Call>, v': View, calls': seq<Call>, sc: Schedule,
                           tick: Tick, plan: Planner, no: bool) {
    && (no ==> Runnable(sc) && v'.schedules == v.schedules)
    && (!Runnable(sc) ==> v' == v && calls' == calls)
    && (Runnable(sc) && !no ==> v'.schedules == Marked(v.schedules, sc.id, NextOf(sc, tick), tick.at))
    && CallsOf(calls, calls', if Runnable(sc) then {sc.id} else {})
    && DueTurn(Turn(v, calls'[|calls|..]), plan(v, sc), no)
  }

  function FiredAfter(fired: set<nat>, sc: Schedule, no: bool): set<nat> {
    if Runnable(sc) && !no then fired + {sc.id} else fired
  }

  function RefusedAfter(refused: set<nat>, sc: Schedule, no: bool): set<nat> {
    if no then refused + {sc.id} else refused
  }

  lemma DueRows(start: View, tick: Tick, plan: Planner, fired: set<nat>, v: View, calls: seq<Call>, v': View,
                calls': seq<Call>, sc: Schedule, no: bool)
    requires DistinctSchedules(start.schedules) && sc in start.schedules && sc.id !in fired
    requires v.schedules == Fired(start.schedules, fired, tick) && TookTurn(v, calls, v', calls', sc, tick, plan, no)
    ensures v'.schedules == Fired(start.schedules, FiredAfter(fired, sc, no), tick)
  {
    FiredStep(start.schedules, fired, tick, sc);
  }

  lemma DueCalls(first: seq<Call>, tick: Tick, plan: Planner, ids: set<nat>, turns: seq<Turn>, v: View,
                 calls: seq<Call>, v': View, calls': seq<Call>, sc: Schedule, no: bool)
    requires calls == first + Made(turns) && CallsOf(first, calls, ids)
    requires TookTurn(v, calls, v', calls', sc, tick, plan, no)
    ensures calls' == first + Made(turns + [Turn(v, calls'[|calls|..])])
    ensures CallsOf(first, calls', ids + if Runnable(sc) then {sc.id} else {})
  {
    MadeStep(turns, Turn(v, calls'[|calls|..]));
    CallsOfStep(first, calls, calls', ids, if Runnable(sc) then {sc.id} else {});
  }

  lemma DueStep(start: View, first: seq<Call>, due: seq<Schedule>, tick: Tick, plan: Planner,
                fired: set<nat>, refused: set<nat>, turns: seq<Turn>, v: View, calls: seq<Call>,
                v': View, calls': seq<Call>, no: bool)
    requires MidDue(start, first, due, tick, plan, fired, refused, turns, v, calls) && |turns| < |due|
    requires DistinctSchedules(start.schedules) && DistinctSchedules(due) && due[|turns|] in start.schedules
    requires turns == [] ==> v == start
    requires TookTurn(v, calls, v', calls', due[|turns|], tick, plan, no)
    ensures MidDue(start, first, due, tick, plan,
                   FiredAfter(fired, due[|turns|], no), RefusedAfter(refused, due[|turns|], no),
                   turns + [Turn(v, calls'[|calls|..])], v', calls')
  {
    var sc, turn := due[|turns|], Turn(v, calls'[|calls|..]);
    RunnableIdsStep(due, |turns|);
    DueRows(start, tick, plan, fired, v, calls, v', calls', sc, no);
    DueCalls(first, tick, plan, fired + refused, turns, v, calls, v', calls', sc, no);
    DueTurnsStep(start, due, turns, turn, plan, refused, no);
    assert FiredAfter(fired, sc, no) + RefusedAfter(refused, sc, no)
        == fired + refused + if Runnable(sc) then {sc.id} else {};
  }

  /** A tick in which nothing would start makes no call. */
  lemma {:induction false} QuietTurns(v: View, turns: seq<Turn>, tick: Tick, paused: bool)
    requires RelativeTurns(v, turns, PolicyPlanner(tick), paused) && RelativeQuiet(v, tick)
    ensures Made(turns) == [] && forall j | 0 <= j < |turns| :: turns[j].view == v && turns[j].made == []
  {
    if turns != [] {
      var n := |turns| - 1;
      assert RelativeTurns(v, turns[..n], PolicyPlanner(tick), false) by {
        assert forall j | 0 <= j < n :: turns[..n][j] == turns[j];
      }
      QuietTurns(v, turns[..n], tick, false);
      assert n > 0 ==> turns[..n][n - 1] == turns[n - 1];
      assert turns[n].view == v;
      QuietPolicyPlan(v, ListedAt(v, n), tick);
    }
  }

  lemma QuietPolicyPlan(v: View, sc: Schedule, tick: Tick)
    requires QuietPolicy(v, sc, tick)
    ensures PolicyPlan(v, sc, tick) == []
  {
    if PolicyPlan(v, sc, tick) != [] {
      QuietPlan(v, sc, tick, ClockOf(tick, sc.id));
    }
  }

  lemma NewCallsJustified(start: seq<Call>, before: seq<Call>, calls: seq<Call>, list: seq<Schedule>, i: nat,
                          table: Table, was: Table)
    requires start <= before <= calls && i < |list| && SubTable(table, was)
    requires JustifiedSince(start, before, list, was) && JustifiedSince(before, calls, [list[i]], table)
    ensures JustifiedSince(start, calls, list, was)
  {
    assert calls[|start|..] == before[|start|..] + calls[|before|..];
    forall c | c in calls[|before|..] ensures JustifiedBySome(c, list, was) {
      assert JustifiedBySome(c, [list[i]], table);
      JustifiedBySubTable(c, table, was, list[i], Delay(list[i]).value);
    }
  }

  class Scheduler {
    var schedules: seq<Schedule>
    var containers: seq<Target>
    var candidates: Table
    var triggered: seq<string>
    var checkInterval: int
    ghost var calls: seq<Call>

    ghost function Tables(): View
      reads this
    {
      View(schedules, containers, candidates, checkInterval)
    }

    ghost predicate Valid()
      reads this
    {
      DistinctContainers(containers) && DistinctSchedules(schedules)
    }

    /** The updater's part: it may refuse, fail or succeed, and rewrites container rows
        unless it refused. */
    method Update(schedule: nat, container: string, image: string, at: int) returns (outcome: Outcome)
      requires Valid()
      modifies this`containers, this`calls
      ensures Valid()
      ensures outcome == Refused ==> containers == old(containers) && calls == old(calls)
      ensures outcome != Refused ==> calls == old(calls) + [Call(schedule, container, image, at)]
    {
      outcome := *;
      if outcome != Refused {
        calls := calls + [Call(schedule, container, image, at)];
        assert DistinctContainers([]);
        var rows: seq<Target> :| DistinctContainers(rows);
        containers := rows;
      }
    }

    method ResolveTargets(sc: Schedule, pick: nat) returns (targets: Option<seq<Target>>)
      requires Valid()
      ensures targets == Resolve(containers, sc, pick)
      ensures targets.Some? ==> DistinctContainers(targets.value)
    {
      if sc.containerName != "" {
        var found := FindByName(containers, sc.containerName, pick);
        return if found.Some? then Some([found.value]) else None;
      }
      var out: seq<Target> := [];
      for i := 0 to |containers|
        invariant out == InStack(containers[..i], sc.stack)
      {
        assert containers[..i + 1][..i] == containers[..i];
        if containers[i].stack == sc.stack {
          out := out + [containers[i]];
        }
      }
      assert containers[..|containers|] == containers;
      InStackDistinct(containers, sc.stack);
      return Some(out);
    }

    /** One turn of applyToTargets' loop. */
    method ApplyToTarget(sc: Schedule, rec: Target, delay: int, t: int) returns (started: bool, paused: bool)
      requires Valid()
      modifies this`containers, this`candidates, this`calls
      ensures Valid()
      ensures started || paused <==> Applies(old(candidates), sc, rec, delay, t)
      ensures started ==> !paused && calls == old(calls) + [PlannedCall(old(candidates), sc, rec, t)]
      ensures started ==> candidates == old(candidates) || candidates == Cleared(old(candidates), rec.id)
      ensures !started ==> calls == old(calls) && containers == old(containers) && candidates == old(candidates)
    {
      started, paused := false, false;
      if !rec.updateAvailable || rec.excluded || (rec.id, Scope(sc)) !in candidates {
        return;
      }
      var candidate := candidates[(rec.id, Scope(sc))];
      if delay > 0 && t < candidate.detectedAt + delay {
        return;
      }
      var outcome := Update(sc.id, rec.id, candidate.image, t);
      if outcome == Refused {
        return false, true;
      }
      if outcome == Succeeded {
        candidates := Cleared(candidates, rec.id);
      }
      started := true;
    }

    method ApplyToTargets(sc: Schedule, delay: int, clock: nat -> int, pick: nat) returns (applied: nat, paused: bool)
      requires Valid()
      modifies this`containers, this`candidates, this`calls
      ensures Valid() && SubTable(candidates, old(candidates))
      ensures applied <= |PlanFor(old(containers), old(candidates), sc, delay, clock, pick)|
      ensures calls == old(calls) + PlanFor(old(containers), old(candidates), sc, delay, clock, pick)[..applied]
      ensures paused <==> applied < |PlanFor(old(containers), old(candidates), sc, delay, clock, pick)|
      ensures applied == 0 ==> containers == old(containers) && candidates == old(candidates)
    {
      applied, paused := 0, false;
      var resolved := ResolveTargets(sc, pick);
      if resolved.None? {
        return;
      }
      applied, paused := ApplyToEach(sc, resolved.value, delay, clock);
    }

    method ApplyToEach(sc: Schedule, targets: seq<Target>, delay: int, clock: nat -> int)
      returns (applied: nat, paused: bool)
      requires Valid() && DistinctContainers(targets)
      modifies this`containers, this`candidates, this`calls
      ensures Valid() && SubTable(candidates, old(candidates))
      ensures applied <= |Plan(old(candidates), sc, targets, delay, clock)|
      ensures calls == old(calls) + Plan(old(candidates), sc, targets, delay, clock)[..applied]
      ensures paused <==> applied < |Plan(old(candidates), sc, targets, delay, clock)|
      ensures applied == 0 ==> containers == old(containers) && candidates == old(candidates)
    {
      applied, paused := 0, false;
      ghost var table := candidates;
      for i := 0 to |targets|
        invariant Valid()
        invariant Progress(table, sc, targets, delay, clock, i, candidates, old(calls), calls, applied)
        invariant applied == 0 ==> containers == old(containers) && candidates == old(candidates)
      {
        ghost var before, earlier := candidates, calls;
        UntouchedStep(candidates, table, sc, targets, delay, clock(i), i);
        var started: bool;
        started, paused := ApplyToTarget(sc, targets[i], delay, clock(i));
        ProgressStep(table, sc, targets, delay, clock, i, before, candidates, old(calls), earlier, calls, applied,
                     started);
        if paused {
          return;
        }
        if started {
          applied := applied + 1;
        }
      }
      assert targets[..|targets|] == targets;
    }

    method MarkScheduleRun(id: nat, next: Option<int>, t: int)
      requires Valid()
      modifies this`schedules
      ensures Valid() && schedules == Marked(old(schedules), id, next, t)
    {
      schedules := Marked(schedules, id, next, t);
    }

    method ExecuteOnce(sc: Schedule, t: int, pick: nat) returns (refused: bool)
      requires Valid()
      modifies this`schedules, this`containers, this`calls
      ensures Valid()
      ensures refused ==> schedules == old(schedules) && containers == old(containers) && calls == old(calls)
      ensures !refused ==> schedules == Marked(old(schedules), sc.id, None, t)
      ensures !refused ==> calls == old(calls) + OnceCall(old(containers), sc, t, pick)
    {
      var rec := FindByName(containers, sc.containerName, pick);
      if rec.None? {
        MarkScheduleRun(sc.id, None, t);
        return false;
      }
      var target := sc.pinnedImage;
      if target == "" {
        target := rec.value.currentImage;
      }
      var outcome := Update(sc.id, rec.value.id, target, t);
      if outcome == Refused {
        return true;
      }
      MarkScheduleRun(sc.id, None, t);
      return false;
    }

    method ExecuteCron(sc: Schedule, clock: nat -> int, next: Option<int>, t: int, pick: nat) returns (refused: bool)
      requires Valid()
      modifies this`schedules, this`containers, this`candidates, this`calls
      ensures Valid()
      ensures schedules == if refused then old(schedules) else Marked(old(schedules), sc.id, next, t)
      ensures refused ==> calls <= old(calls) + PlanFor(old(containers), old(candidates), sc, 0, clock, pick)
      ensures !refused ==> calls == old(calls) + PlanFor(old(containers), old(candidates), sc, 0, clock, pick)
      ensures old(calls) <= calls
    {
      var applied;
      applied, refused := ApplyToTargets(sc, 0, clock, pick);
      if !refused {
        MarkScheduleRun(sc.id, next, t);
      }
    }

    method DueSchedules(t: int) returns (due: seq<Schedule>)
      ensures due == AllDue(schedules, t)
      ensures forall sc :: sc in due <==>
                sc in schedules && sc.enabled && sc.nextRunAt.Some? && sc.nextRunAt.value <= t
    {
      due := [];
      for i := 0 to |schedules|
        invariant due == AllDue(schedules[..i], t)
      {
        assert schedules[..i + 1][..i] == schedules[..i];
        if Due(schedules[i], t) {
          due := due + [schedules[i]];
        }
      }
      assert schedules[..|schedules|] == schedules;
      AllDueFacts(schedules, t);
    }

    /** One due schedule's turn: it makes its planned calls and its row is marked, or the
        gate stops it and its row stays. */
    method ExecuteDue(sc: Schedule, tick: Tick) returns (refused: bool)
      requires Valid() && Runnable(sc)
      modifies this`schedules, this`containers, this`candidates, this`calls
      ensures Valid()
      ensures schedules == if refused then old(schedules) else Marked(old(schedules), sc.id, NextOf(sc, tick), tick.at)
      ensures old(calls) <= calls && calls[|old(calls)|..] <= DuePlan(old(Tables()), sc, tick)
      ensures !refused ==> calls[|old(calls)|..] == DuePlan(old(Tables()), sc, tick)
      ensures CallsOf(old(calls), calls, {sc.id})
    {
      ghost var plan := DuePlan(Tables(), sc, tick);
      if sc.kind == "once" {
        refused := ExecuteOnce(sc, tick.at, tick.pick(sc.id));
      } else {
        var clock := ClockOf(tick, sc.id);
        PlanForJustified(containers, candidates, sc, 0, clock, tick.pick(sc.id));
        refused := ExecuteCron(sc, clock, tick.next(sc.id), tick.at, tick.pick(sc.id));
        assert calls[|old(calls)|..] <= plan;
        assert forall c | c in calls[|old(calls)|..] :: c in plan;
      }
    }

    /** Every due schedule is either refused, keeping its row exactly, or executed and
        marked; rows that are not due never change. The calls made are the plans of the
        due schedules in their turns, cut short only where refused. */
    method RunDueSchedules(tick: Tick) returns (fired: set<nat>, refused: set<nat>, ghost turns: seq<Turn>)
      requires Valid()
      modifies this`schedules, this`containers, this`candidates, this`calls
      ensures Valid()
      ensures schedules == Fired(old(schedules), fired, tick)
      ensures fired !! refused
      ensures fired + refused == if tick.maintenance then {} else RunnableIds(AllDue(old(schedules), tick.at))
      ensures CallsOf(old(calls), calls, fired + refused)
      ensures calls == old(calls) + Made(turns)
      ensures DueTurns(old(Tables()), AllDue(old(schedules), tick.at), turns, DuePlanner(tick), refused)
      ensures |turns| == if tick.maintenance then 0 else |AllDue(old(schedules), tick.at)|
      ensures fired + refused == {} ==>
                containers == old(containers) && candidates == old(candidates) && calls == old(calls)
    {
      fired, refused, turns := {}, {}, [];
      FiredNone(schedules, tick);
      if tick.maintenance {
        return;
      }
      var due := DueSchedules(tick.at);
      AllDueFacts(schedules, tick.at);
      ghost var start, plan := Tables(), DuePlanner(tick);
      for d := 0 to |due|
        invariant Valid() && |turns| == d
        invariant MidDue(start, old(calls), due, tick, plan, fired, refused, turns, Tables(), calls)
        invariant turns == [] ==> Tables() == start
      {
        ghost var view, before := Tables(), calls;
        assert due[d] in due;
        var no := TakeTurn(due[d], tick, plan);
        DueStep(start, old(calls), due, tick, plan, fired, refused, turns, view, before, Tables(), calls, no);
        fired, refused := FiredAfter(fired, due[d], no), RefusedAfter(refused, due[d], no);
        turns := turns + [Turn(view, calls[|before|..])];
      }
      assert due[..|due|] == due;
    }

    /** The switch over the kinds of due schedules. */
    method TakeTurn(sc: Schedule, tick: Tick, ghost plan: Planner) returns (refused: bool)
      requires Valid() && plan == DuePlanner(tick)
      modifies this`schedules, this`containers, this`candidates, this`calls
      ensures Valid()
      ensures TookTurn(old(Tables()), old(calls), Tables(), calls, sc, tick, plan, refused)
    {
      refused := false;
      if Runnable(sc) {
        refused := ExecuteDue(sc, tick);
      }
    }

    /** One relative policy's turn: it carries out its plan, or as much of it as the gate
        allows, and is marked as having run if it started anything. */
    method ExecuteRelative(sc: Schedule, tick: Tick) returns (paused: bool)
      requires Valid()
      modifies this`schedules, this`containers, this`candidates, this`calls
      ensures Valid() && SubTable(candidates, old(candidates))
      ensures old(calls) <= calls && calls[|old(calls)|..] <= PolicyPlan(old(Tables()), sc, tick)
      ensures paused <==> calls[|old(calls)|..] != PolicyPlan(old(Tables()), sc, tick)
      ensures schedules ==
              if !paused && calls != old(calls) then Touched(old(schedules), sc.id, tick.at) else old(schedules)
      ensures forall c | c in calls[|old(calls)|..] ::
                && sc.enabled && sc.kind == "relative" && Delay(sc).Some?
                && Justified(c, old(candidates), sc, Delay(sc).value)
      ensures calls == old(calls) ==> Tables() == old(Tables())
    {
      paused := false;
      if !sc.enabled || sc.kind != "relative" || !RetryReady(sc.lastRunAt, checkInterval, tick.ready(sc.id)) {
        return;
      }
      var delay := 0;
      if sc.relativePolicy == "delayed" {
        if sc.relativeAfter.None? {
          return;
        }
        delay := sc.relativeAfter.value;
      }
      var clock := ClockOf(tick, sc.id);
      ghost var plan := PlanFor(containers, candidates, sc, delay, clock, tick.pick(sc.id));
      PlanForJustified(containers, candidates, sc, delay, clock, tick.pick(sc.id));
      var applied;
      applied, paused := ApplyToTargets(sc, delay, clock, tick.pick(sc.id));
      assert calls[|old(calls)|..] == plan[..applied];
      assert forall c | c in calls[|old(calls)|..] :: c in plan;
      if !paused && applied > 0 {
        schedules := Touched(schedules, sc.id, tick.at);
      }
    }

    /** A policy's turn as the tick's loop sees it. */
    method TakePolicyTurn(sc: Schedule, tick: Tick, ghost plan: Planner) returns (paused: bool)
      requires Valid() && plan == PolicyPlanner(tick)
      modifies this`schedules, this`containers, this`candidates, this`calls
      ensures Valid() && TookPolicyTurn(old(Tables()), old(calls), Tables(), calls, sc, plan, paused)
    {
      paused := ExecuteRelative(sc, tick);
      assert [sc][0] == sc;
    }

    /** Each policy in turn carries out its plan for the tables it finds; only a refusal at
        the gate stops the tick. Every update it starts goes to the image of a candidate
        that was there when the tick began, old enough for its policy. */
    method RunRelativePolicies(tick: Tick) returns (paused: bool, ghost turns: seq<Turn>)
      requires Valid()
      modifies this`schedules, this`containers, this`candidates, this`calls
      ensures Valid() && SubTable(candidates, old(candidates))
      ensures calls == old(calls) + Made(turns) && RelativeTurns(old(Tables()), turns, PolicyPlanner(tick), paused)
      ensures tick.maintenance ==> turns == [] && !paused
      ensures !tick.maintenance && !paused ==> |turns| == |old(schedules)|
      ensures JustifiedSince(old(calls), calls, old(schedules), old(candidates))
      ensures calls == old(calls) ==> Tables() == old(Tables())
    {
      paused, turns := false, [];
      if tick.maintenance {
        return;
      }
      var list := schedules;
      ghost var start, plan := Tables(), PolicyPlanner(tick);
      for i := |list| downto 0
        invariant Valid() && |turns| == |list| - i
        invariant MidRelative(start, old(calls), plan, turns, Tables(), calls, false)
      {
        ghost var view, before := Tables(), calls;
        assert list[i] == ListedAt(start, |turns|);
        paused := TakePolicyTurn(list[i], tick, plan);
        RelativeStep(start, old(calls), plan, turns, view, before, Tables(), calls, paused);
        turns := turns + [Turn(view, calls[|before|..])];
        if paused {
          return;
        }
      }
    }

    /** Nothing blocks exactly when no rollback is pending and every schedule is clear of
        the horizon; each blocker otherwise reported belongs to a schedule and, for a
        relative one, a target. None is an error. */
    method SelfUpdateBlockers(now: int, horizon: int, read: Reads) returns (r: Option<seq<Blocker>>)
      requires Valid()
      ensures r == Some([]) <==> triggered == [] && AllClear(Tables(), now, horizon, read)
      ensures triggered == [] && r.Some? ==> forall b | b in r.value :: ReportedFor(b, now, horizon, read)
    {
      var blockers: seq<Blocker> := [];
      if triggered != [] {
        for i := 0 to |triggered|
          invariant |blockers| == i
        {
          blockers := blockers + [RollbackPending(triggered[i])];
        }
        return Some(blockers);
      }
      for i := |schedules| downto 0
        invariant blockers == [] <==>
                  forall j | i <= j < |schedules| :: ClearSchedule(Tables(), schedules[j], now, horizon, read)
        invariant forall b | b in blockers :: ReportedFor(b, now, horizon, read)
      {
        var found := ScheduleBlockers(schedules[i], now, horizon, read);
        if found.None? {
          return None;
        }
        blockers := blockers + found.value;
      }
      return Some(blockers);
    }

    /** Some schedule, and some target of it, has the blocker. */
    ghost predicate ReportedFor(b: Blocker, now: int, horizon: int, read: Reads)
      reads this
    {
      exists i, k: nat | 0 <= i < |schedules| :: Reported(b, Tables(), schedules[i], k, now, horizon, read)
    }

    /** One schedule's turn of the check. */
    method ScheduleBlockers(sc: Schedule, now: int, horizon: int, read: Reads) returns (r: Option<seq<Blocker>>)
      requires Valid()
      ensures r == Some([]) <==> ClearSchedule(Tables(), sc, now, horizon, read)
      ensures r.Some? ==>
                forall b | b in r.value :: exists k: nat :: Reported(b, Tables(), sc, k, now, horizon, read)
    {
      if !sc.enabled {
        return Some([]);
      }
      if sc.nextRunAt.Some? && sc.nextRunAt.value <= horizon {
        r := Some([ScheduleDue(sc.id, sc.nextRunAt.value)]);
        assert Reported(r.value[0], Tables(), sc, 0, now, horizon, read);
        return;
      }
      if sc.kind != "relative" {
        return Some([]);
      }
      var resolved := ResolveTargets(sc, read.pick(sc.id));
      if resolved.None? {
        return None;
      }
      r := RelativeBlockers(sc, resolved.value, now, horizon, read);
    }

    method RelativeBlockers(sc: Schedule, targets: seq<Target>, now: int, horizon: int, read: Reads)
      returns (r: Option<seq<Blocker>>)
      requires sc.enabled && sc.kind == "relative" && Resolve(containers, sc, read.pick(sc.id)) == Some(targets)
      ensures r == Some([]) <==> ClearTargets(candidates, sc, targets, now, horizon, read.unreadable)
      ensures r.Some? ==>
                forall b | b in r.value :: exists k: nat :: Reported(b, Tables(), sc, k, now, horizon, read)
    {
      var blockers: seq<Blocker> := [];
      for k := 0 to |targets|
        invariant blockers == [] <==>
                  forall j | 0 <= j < k :: ClearTarget(candidates, sc, targets[j], now, horizon, read.unreadable)
        invariant forall b | b in blockers :: exists j: nat :: Reported(b, Tables(), sc, j, now, horizon, read)
      {
        var rec := targets[k];
        if !rec.updateAvailable || rec.excluded {
          continue;
        }
        var due := now;
        if sc.relativePolicy == "delayed" {
          if sc.relativeAfter.None? {
            return None;
          }
          var key := (rec.id, Scope(sc));
          if key !in candidates || key in read.unreadable {
            continue;
          }
          due := candidates[key].detectedAt + sc.relativeAfter.value;
        }
        if due <= horizon {
          var b := RelativeDue(sc.id, rec.name, due);
          assert Reported(b, Tables(), sc, k, now, horizon, read);
          blockers := blockers + [b];
        }
      }
      return Some(blockers);
    }

    /** The scheduler's loop over due ticks. After a self-update check that found nothing, and
        would have found nothing with every candidate lookup working among the schedules
        that may run, no run of ticks up to the horizon starts any update or changes any
        row. */
    method Run(ticks: seq<Tick>, ghost now: int, ghost horizon: int, ghost read: Reads)
      requires Valid()
      modifies this`schedules, this`containers, this`candidates, this`calls
      ensures Valid()
      ensures old(Safe(ticks, now, horizon, read)) ==> Tables() == old(Tables()) && calls == old(calls)
    {
      ghost var safe := Safe(ticks, now, horizon, read);
      for i := 0 to |ticks|
        invariant Valid()
        invariant safe ==> Tables() == old(Tables()) && calls == old(calls)
      {
        if safe {
          ClearMeansQuietTick(Tables(), now, horizon, read, ticks[i]);
        }
        RunTick(ticks[i]);
      }
    }

    /** One due tick; if nothing is due and nothing would start, it does nothing. */
    method RunTick(tick: Tick)
      requires Valid()
      modifies this`schedules, this`containers, this`candidates, this`calls
      ensures Valid()
      ensures AllDue(old(schedules), tick.at) == [] && RelativeQuiet(old(Tables()), tick) ==>
                Tables() == old(Tables()) && calls == old(calls)
    {
      FiredNone(schedules, tick);
      var fired, refused, dueTurns := RunDueSchedules(tick);
      ghost var view := Tables();
      var paused, turns := RunRelativePolicies(tick);
      if RelativeQuiet(view, tick) {
        QuietTurns(view, turns, tick, paused);
      }
    }

    /** The check found nothing that may run, row names are unique, no candidate is from
        the future, and the ticks stay within the horizon. */
    ghost predicate Safe(ticks: seq<Tick>, now: int, horizon: int, read: Reads)
      reads this
    {
      && AllClear(Tables(), now, horizon, read) && ReadyClear(Tables(), now, horizon, read)
      && UniqueNames(containers) && NothingDetectedAfter(candidates, now)
      && forall i | 0 <= i < |ticks| :: Within(ticks[i], now, horizon)
    }
  }
}
