/** The crash-loop monitor: Docker events and restart counters feed the watches,
    and a triggered watch starts the automatic rollback. */
module CrashMonitor {
  import opened Options
  import opened ContainerStore
  import opened CrashWatch
  import opened DockerHost
  import opened Updating

  /** One watch after a fault-free reconcile. */
  function ReconciledWatch(w: Watch, containers: map<ContainerId, Container>, now: int): Watch {
    var live := ExpiredAt(w, now);
    if live.status == Active && live.containerId in containers
    then Reconciled(live, containers[live.containerId].restartCount, now)
    else live
  }

  /** The same, as a step of the run-level model. */
  lemma ReconcileIsAStep(w: Watch, containers: map<ContainerId, Container>, now: int)
    requires w.containerId in containers
    ensures ReconciledWatch(w, containers, now) == Step(w, Reconcile(containers[w.containerId].restartCount, now))
  {
  }

  /** The watches when the first `i` of the listed names were reconciled. */
  ghost function ReconciledFirst(live: Watches, names: seq<string>, i: nat, containers: map<ContainerId, Container>,
                                 now: int): Watches
    requires i <= |names|
  {
    map n | n in live :: if n in names[..i] then ReconciledWatch(live[n], containers, now) else live[n]
  }

  lemma ReconciledFirstStep(live: Watches, names: seq<string>, i: nat, containers: map<ContainerId, Container>,
                            now: int)
    requires i < |names| && names[i] in live && forall j | 0 <= j < i :: names[j] != names[i]
    ensures names[i] in ReconciledFirst(live, names, i, containers, now)
    ensures ReconciledFirst(live, names, i, containers, now)[names[i]] == live[names[i]]
    ensures ReconciledFirst(live, names, i + 1, containers, now)
         == ReconciledFirst(live, names, i, containers, now)
              [names[i] := ReconciledWatch(live[names[i]], containers, now)]
  {
  }

  datatype Event = Event(action: string, name: string, containerId: ContainerId, exitCode: Option<int>, time: int,
                         timeNano: int)

  /** The crash an event reports: a die with a name and an exit code that is not zero. */
  function CrashOf(e: Event): Option<CrashEvent> {
    if e.action != "die" || e.name == "" || e.exitCode == Some(0) then None
    else Some(CrashEvent(e.containerId, if e.timeNano == 0 then e.time else e.timeNano, e.time))
  }

  /** The running state an event's action reports, if any. */
  function LifecycleState(action: string): Option<Status> {
    if action == "start" || action == "unpause" then Some(Running)
    else if action == "die" || action == "stop" || action == "kill" || action == "oom" then Some(Exited)
    else if action == "pause" then Some(Paused)
    else None
  }

  /** Docker's actions and the states they lead to; the others say nothing. */
  lemma LifecycleTable(action: string)
    ensures LifecycleState(action) == Some(Running) <==> action in {"start", "unpause"}
    ensures LifecycleState(action) == Some(Exited) <==> action in {"die", "stop", "kill", "oom"}
    ensures LifecycleState(action) == Some(Paused) <==> action in {"pause"}
    ensures LifecycleState(action).None? <==> action !in {"start", "unpause", "die", "stop", "kill", "oom", "pause"}
  {
  }

  /** The rows once the event's state is reflected. */
  function SyncedRows(rows: Rows, e: Event): Rows {
    if LifecycleState(e.action).Some? && e.containerId in rows
    then rows[e.containerId := rows[e.containerId].(state := LifecycleState(e.action).value)]
    else rows
  }

  /** The watches for which this reconcile crosses the threshold. */
  ghost predicate CrossesNow(w: Watch, containers: map<ContainerId, Container>, now: int) {
    w.containerId in containers && StepTriggers(w, Reconcile(containers[w.containerId].restartCount, now)) > 0
  }

  /** The rollbacks are the crossing watches among these names. */
  ghost predicate RollbacksAre(rollbacks: seq<string>, live: Watches, names: seq<string>, containers: map<ContainerId,
                               Container>, now: int) {
    forall n :: n in rollbacks <==> n in names && n in live && CrossesNow(live[n], containers, now)
  }

  lemma RollbacksStep(rollbacks: seq<string>, live: Watches, names: seq<string>, i: nat, containers: map<ContainerId,
                      Container>, now: int)
    requires i < |names| && names[i] in live && RollbacksAre(rollbacks, live, names[..i], containers, now)
    ensures RollbacksAre(rollbacks + if CrossesNow(live[names[i]], containers, now) then [names[i]] else [],
                         live, names[..i + 1], containers, now)
  {
    assert names[..i + 1] == names[..i] + [names[i]];
  }

  /** Only active watches cross, and expiring first makes no difference. */
  lemma RollbacksOfAll(rollbacks: seq<string>, watches: Watches, live: Watches, names: seq<string>,
                       containers: map<ContainerId, Container>, now: int)
    requires live == ExpiredWatches(watches, now) && RollbacksAre(rollbacks, live, names, containers, now)
    requires forall n :: n in names <==> n in live && live[n].status == Active
    ensures forall n :: n in rollbacks <==> n in watches && CrossesNow(watches[n], containers, now)
  {
    forall n | n in watches ensures CrossesNow(watches[n], containers, now) == CrossesNow(live[n], containers, now) {
      assert ExpiredAt(live[n], now) == live[n] == ExpiredAt(watches[n], now);
    }
  }

  ghost predicate NoneExpires(watches: Watches, now: int) {
    forall n | n in watches :: ExpiredAt(watches[n], now) == watches[n]
  }

  lemma ListedReconcilesAll(watches: Watches, live: Watches, names: seq<string>, containers: map<ContainerId,
                            Container>, now: int)
    requires live == ExpiredWatches(watches, now)
    requires forall n :: n in names <==> n in live && live[n].status == Active
    ensures NoneExpires(live, now)
    ensures ReconciledFirst(live, names, |names|, containers, now)
         == map n | n in watches :: ReconciledWatch(watches[n], containers, now)
  {
    assert names[..|names|] == names;
  }

  /** `id` is the one row of that name. */
  ghost predicate OneRow(rows: Rows, name: string, id: ContainerId) {
    id in rows && rows[id].name == name && forall i | i in rows && rows[i].name == name :: i == id
  }

  class Monitor {
    const host: Host
    const store: Store
    const updater: Updater

    constructor (updater: Updater)
      ensures this.updater == updater && host == updater.host && store == updater.store
    {
      this.updater, this.host, this.store := updater, updater.host, updater.store;
    }

    ghost function Faults(): nat
      reads host, store
    {
      host.faults + store.faults
    }

    /** syncState. */
    method SyncState(e: Event)
      modifies store`rows, store`faults
      ensures store.faults >= old(store.faults)
      ensures store.rows != SyncedRows(old(store.rows), e) ==>
                store.rows == old(store.rows) && store.faults > old(store.faults)
    {
      var state := LifecycleState(e.action);
      if state.Some? {
        var _ := store.SetContainerState(e.containerId, state.value);
      }
    }

    method HandleEvent(e: Event) returns (rollback: bool)
      modifies store`rows, store`watches, store`faults
      ensures store.faults == old(store.faults) ==> store.rows == SyncedRows(old(store.rows), e)
      ensures store.faults == old(store.faults) && CrashOf(e).Some? && e.name in old(store.watches) ==>
        && store.watches == old(store.watches)[e.name := Recorded(old(store.watches)[e.name], CrashOf(e).value)]
        && rollback == Triggers(old(store.watches)[e.name], CrashOf(e).value)
      ensures CrashOf(e).None? || e.name !in old(store.watches) ==> store.watches == old(store.watches) && !rollback
      ensures store.faults == old(store.faults) && e.name in old(store.watches) ==>
        var w, nano := old(store.watches)[e.name], if e.timeNano == 0 then e.time else e.timeNano;
        var counts := && e.action == "die" && e.name != "" && e.exitCode != Some(0)
                      && w.status == Active && w.containerId == e.containerId
                      && e.time < w.expiresAt && nano > w.lastEventNano;
        && e.name in store.watches
        && store.watches[e.name].crashCount == w.crashCount + (if counts then 1 else 0)
        && (counts ==> store.watches[e.name].lastEventNano == nano && store.watches[e.name].lastCrashAt == Some(e.time))
        && (!counts ==> store.watches == old(store.watches))
        && (rollback <==> counts && w.crashCount + 1 >= w.threshold)
      ensures store.watches != old(store.watches) || rollback ==>
        && store.watches == old(store.watches)[e.name := Recorded(old(store.watches)[e.name], CrashOf(e).value)]
        && rollback == Triggers(old(store.watches)[e.name], CrashOf(e).value)
    {
      SyncState(e);
      if e.action != "die" || e.name == "" {
        return false;
      }
      if e.exitCode.Some? && e.exitCode.value == 0 {
        return false;
      }
      var nano := e.timeNano;
      if nano == 0 {
        nano := e.time;
      }
      var _, triggered := store.RecordCrash(e.name, CrashEvent(e.containerId, nano, e.time));
      return triggered;
    }

    /** The restarts of one container that no event reported. */
    method RecordDelta(name: string, id: ContainerId, delta: nat, now: int) returns (triggered: bool)
      requires name in store.watches && store.watches[name].containerId == id
      modifies store`watches, store`faults
      ensures store.faults >= old(store.faults)
      ensures store.faults == old(store.faults) ==>
        var w := old(store.watches)[name];
        && store.watches == old(store.watches)[name := Replay(w, CounterEvents(w, delta, now))]
        && triggered == (TriggerCount(w, CounterEvents(w, delta, now)) > 0)
    {
      ghost var w := store.watches[name];
      triggered := false;
      for i := 0 to delta
        invariant store.faults >= old(store.faults)
        invariant store.faults == old(store.faults) ==>
          && store.watches == old(store.watches)[name := Replay(w, CounterEvents(w, i, now))]
          && triggered == (TriggerCount(w, CounterEvents(w, i, now)) > 0)
      {
        ghost var events := CounterEvents(w, i + 1, now);
        assert events[..|events| - 1] == CounterEvents(w, i, now) && events[i] == CrashEvent(id, now + i, now);
        var _, crossed := store.RecordCrash(name, CrashEvent(id, now + i, now));
        triggered := triggered || crossed;
      }
    }

    /** One listed watch: record the difference, then write the counter back. */
    method ReconcileOne(name: string, now: int) returns (triggered: bool)
      requires name in store.watches && store.watches[name].status == Active
      modifies store`watches, store`faults, host`faults
      ensures Faults() >= old(Faults())
      ensures Faults() == old(Faults()) ==> store.watches == old(store.watches)[name :=
        var w := old(store.watches)[name];
        if w.containerId in host.containers then Reconciled(w, host.containers[w.containerId].restartCount, now) else w]
      ensures Faults() == old(Faults()) && ExpiredAt(old(store.watches)[name], now) == old(store.watches)[name] ==>
        (triggered <==> CrossesNow(old(store.watches)[name], host.containers, now))
    {
      triggered := false;
      var watch := store.watches[name];
      var info := host.Inspect(watch.containerId);
      if info.None? {
        return;
      }
      if info.value.restartCount > watch.observedRestarts {
        triggered := RecordDelta(name, watch.containerId, info.value.restartCount - watch.observedRestarts, now);
      }
      var _ := store.SetRollbackWatchRestartCount(name, info.value.restartCount);
    }

    /** The loop of reconcile over the watches it listed. */
    method ReconcileListed(names: seq<string>, now: int) returns (rollbacks: seq<string>)
      requires forall n | n in names :: n in store.watches && store.watches[n].status == Active
      requires forall i, j | 0 <= i < j < |names| :: names[i] != names[j]
      modifies store`watches, store`faults, host`faults
      ensures Faults() >= old(Faults())
      ensures Faults() == old(Faults()) && NoneExpires(old(store.watches), now) ==>
        && store.watches == ReconciledFirst(old(store.watches), names, |names|, host.containers, now)
        && RollbacksAre(rollbacks, old(store.watches), names, host.containers, now)
    {
      rollbacks := [];
      ghost var live := store.watches;
      ghost var current := NoneExpires(live, now);
      for i := 0 to |names|
        invariant Faults() >= old(Faults())
        invariant Faults() == old(Faults()) && current ==>
                    store.watches == ReconciledFirst(live, names, i, host.containers, now)
        invariant Faults() == old(Faults()) && current ==>
                    RollbacksAre(rollbacks, live, names[..i], host.containers, now)
      {
        assert names[i] in names;
        ReconciledFirstStep(live, names, i, host.containers, now);
        ghost var before := rollbacks;
        if names[i] in store.watches && store.watches[names[i]].status == Active {
          var triggered := ReconcileOne(names[i], now);
          if triggered {
            rollbacks := rollbacks + [names[i]];
          }
        }
        if Faults() == old(Faults()) && current {
          RollbacksStep(before, live, names, i, host.containers, now);
        }
      }
      assert names[..|names|] == names;
    }

    /** reconcile: expire, then bring every active watch up to date. Without faults
        every watch takes exactly the step of the run-level model, and the rollbacks
        started are those of the watches that crossed their threshold in it. */
    method Reconcile(now: int) returns (rollbacks: seq<string>)
      modifies store`watches, store`faults, host`faults
      ensures Faults() >= old(Faults())
      ensures Faults() == old(Faults()) ==>
        store.watches == map n | n in old(store.watches) :: ReconciledWatch(old(store.watches)[n], host.containers, now)
      ensures Faults() == old(Faults()) ==>
        forall n :: n in rollbacks
           <==> n in old(store.watches) && CrossesNow(old(store.watches)[n], host.containers, now)
    {
      rollbacks := [];
      var _ := store.ExpireRollbackWatches(now);
      ghost var live := store.watches;
      var listed := store.ListActiveRollbackWatches();
      if listed.None? {
        return;
      }
      rollbacks := ReconcileListed(listed.value, now);
      if Faults() == old(Faults()) {
        ListedReconcilesAll(old(store.watches), live, listed.value, host.containers, now);
        RollbacksOfAll(rollbacks, old(store.watches), live, listed.value, host.containers, now);
      }
    }

    /** The automatic rollback of a triggered watch. A maintenance refusal keeps the
        watch as it is, for the next daemon to resume; every other failure closes it. */
    method Rollback(name: string, ghost id: ContainerId) returns (out: Outcome)
      requires host == updater.host && store == updater.store
      requires host.Valid()
      modifies host, store, updater.guard
      ensures host.Valid()
      ensures out == Refused(true) ==> updater.Snapshot() == old(updater.Snapshot())
      ensures Faults() == old(Faults()) && OneRow(old(store.rows), name, id) && CanRollBack(old(store.rows), id) ==>
        && (out.Committed? <==> Recreatable(old(host.containers), id) && Admits(old(updater.guard.State()), name))
        && (out == Refused(true) <==> old(updater.guard.maintenance))
      ensures !out.Committed? && out != Refused(true) ==>
        || store.watches == ClosedWatches(old(store.watches), name, "rollback_failed")
        || (store.watches == old(store.watches) && Faults() > old(Faults()))
    {
      var found := store.GetContainerByName(name);
      out := NothingDone;
      if found.Some? {
        ghost var used := updater.Faults();
        out := updater.Rollback(found.value, true);
        if !out.Committed? {
          NotCommittedKeepsWatches(old(updater.Snapshot()), updater.Snapshot(), found.value,
                                   updater.Faults() - used, out);
        }
      }
      if out == Refused(true) {
        return;
      }
      if !out.Committed? {
        var _ := store.CompleteRollbackWatch(name, "rollback_failed");
      }
    }
  }
}
