/** Update, Rollback and their way back. The outcome names the return path;
    the relations below say what each outcome means for the host and the store. */
module Updating {
  import opened Options
  import opened ContainerStore
  import opened CrashWatch
  import opened DockerHost
  import opened ImageReferences
  import opened JsonSubset
  import opened Operations
  import opened Text

  datatype Outcome =
    | Committed(id: ContainerId)        // success
    | Refused(maintenance: bool)        // the guard said no
    | NothingDone                       // no row, no previous image, or the first inspect failed
    | KeptOriginal                      // failed before the original was removed
    | RestartFailed                     // ... and it could not be started again
    | Reverted(id: ContainerId)         // failed later, recreated on the old image
    | RevertFailed
    | RevertUnrecorded(id: ContainerId) // recreated, but the row could not be written

  /** recreationResult. */
  datatype Recreation = Recreation(id: Option<ContainerId>, state: Status, stopped: bool, removed: bool)

  datatype World = World(containers: map<ContainerId, Container>, rows: Rows, watches: Watches)

  predicate SafeToRecreate(s: Status) { s.Running? || s.Exited? || s.Created? }

  /** What a successful recreation of `before` on `image` leaves. */
  predicate RecreatedFrom(before: Container, image: string, c: Container) {
    && c.name == before.name
    && Faithful(before.spec.(image := image), c.spec)
    && c.status == (if IsRunning(before.status) then Running else Created)
    && (RawImageId(image) ==> c.imageId == image)
    && c.restartCount == 0
  }

  /** The only change to the containers is that `id` was replaced by `newId`. */
  predicate Swapped(before: map<ContainerId, Container>, after: map<ContainerId, Container>, id: ContainerId,
                    newId: ContainerId) {
    && id in before && newId in after && newId !in before && id !in after
    && after == (before - {id})[newId := after[newId]]
  }

  function NewRow(c: Container, currentImage: string, previousImage: string): Row {
    Row(c.name, c.spec.stack, c.status, currentImage, previousImage, false, false)
  }

  // The relations between the worlds before and after an operation. `looked`
  // says that the row lookup of that operation found the row.

  ghost predicate UpdateCommitted(w: World, w': World, id: ContainerId, newId: ContainerId, target: string,
                                  looked: bool, armed: Watch, closed: bool) {
    && Swapped(w.containers, w'.containers, id, newId)
    && RecreatedFrom(w.containers[id], target, w'.containers[newId])
    && (looked ==> id in w.rows)
    && w'.rows == ReplacedRows(w.rows, id, newId,
         NewRow(w'.containers[newId],
                if looked then StableImageReference(target, w.rows[id].currentImage) else target,
                w.containers[id].imageId))
    && w'.watches ==
       (if IsRunning(w.containers[id].status) then w.watches[w.containers[id].name := armed]
        else if closed then ClosedWatches(w.watches, w.containers[id].name, "not_running")
        else w.watches)
  }

  ghost predicate RollbackCommitted(w: World, w': World, id: ContainerId, newId: ContainerId, reason: string,
                                    flagged: bool) {
    && Swapped(w.containers, w'.containers, id, newId)
    && id in w.rows && w.rows[id].previousImage != ""
    && RecreatedFrom(w.containers[id], w.rows[id].previousImage, w'.containers[newId])
    && w'.rows == Flagged(ReplacedRows(w.rows, id, newId,
         NewRow(w'.containers[newId], w.rows[id].currentImage, w.containers[id].imageId)), newId, flagged)
    && w'.watches == ClosedWatches(w.watches, w.containers[id].name, reason)
  }

  /** SetUpdateAvailable(true) on the new row, when that write succeeded. */
  function Flagged(rows: Rows, id: ContainerId, flagged: bool): Rows {
    if flagged && id in rows then rows[id := rows[id].(updateAvailable := true)] else rows
  }

  ghost predicate RevertedTo(w: World, w': World, id: ContainerId, newId: ContainerId, looked: bool) {
    && Swapped(w.containers, w'.containers, id, newId)
    && RecreatedFrom(w.containers[id], w.containers[id].spec.image, w'.containers[newId])
    && (looked ==> id in w.rows)
    && w'.rows == RevertedRows(w.rows, id, newId, w.containers[id], w'.containers[newId], looked)
    && w'.watches == w.watches
  }

  /** No container but `id` and one fresh container of its name was touched. */
  ghost predicate OthersUntouched(w: World, w': World, id: ContainerId) {
    && (forall i | i in w.containers && i != id :: i in w'.containers && w'.containers[i] == w.containers[i])
    && (forall i | i in w'.containers && i !in w.containers ::
          id in w.containers && w'.containers[i].name == w.containers[id].name)
  }

  /** Every outcome other than a commit, with the number of failing calls it took. */
  ghost predicate NotCommitted(w: World, w': World, id: ContainerId, faults: int, out: Outcome) {
    match out
    case Committed(_) => false
    case Refused(_) => w' == w
    case NothingDone => w' == w
    case KeptOriginal => w' == w
    case RestartFailed => faults >= 2 && w'.rows == w.rows && w'.watches == w.watches && OthersUntouched(w, w', id)
    case Reverted(newId) =>
      RevertedTo(w, w', id, newId, true) || (RevertedTo(w, w', id, newId, false) && (faults >= 2 || id !in w.rows))
    case RevertFailed => faults >= 2 && w'.rows == w.rows && w'.watches == w.watches && OthersUntouched(w, w', id)
    case RevertUnrecorded(newId) =>
      && faults >= 2 && w'.rows == w.rows && w'.watches == w.watches
      && Swapped(w.containers, w'.containers, id, newId)
      && RecreatedFrom(w.containers[id], w.containers[id].spec.image, w'.containers[newId])
  }

  ghost predicate UpdateResult(w: World, w': World, id: ContainerId, target: string, now: int, threshold: int,
                               window: int,
                               faults: int, out: Outcome) {
    if out.Committed? then
      exists looked: bool, closed: bool ::
        && UpdateCommitted(w, w', id, out.id, target, looked, Armed(out.id, now, window, threshold, 0), closed)
        && (faults == 0 ==> closed && (looked <==> id in w.rows))
    else NotCommitted(w, w', id, faults, out)
  }

  ghost predicate RollbackResult(w: World, w': World, id: ContainerId, reason: string, faults: int, out: Outcome) {
    if out.Committed? then
      exists flagged: bool :: RollbackCommitted(w, w', id, out.id, reason, flagged) && (faults == 0 ==> flagged)
    else NotCommitted(w, w', id, faults, out)
  }

  class Updater {
    const host: Host
    const store: Store
    const guard: OperationGuard

    constructor (host: Host, store: Store, guard: OperationGuard)
      ensures this.host == host && this.store == store && this.guard == guard
    {
      this.host, this.store, this.guard := host, store, guard;
    }

    ghost function Snapshot(): World
      reads host, store
    {
      World(host.containers, store.rows, store.watches)
    }

    ghost function Faults(): nat
      reads host, store
    {
      host.faults + store.faults
    }

    /** The call names an existing container of that name, or a free name. */
    ghost predicate Targetable(oldId: Option<ContainerId>, name: string)
      reads host
    {
      if oldId.Some? then oldId.value in host.containers && host.containers[oldId.value].name == name
      else NameFree(host.containers, name)
    }

    /** The first half of recreate: pull the image, then stop and remove the old
        container, if there is one. */
    method Clear(oldId: Option<ContainerId>, wasRunning: bool, image: string) returns (result: Recreation, ok: bool)
      requires host.Valid()
      modifies host
      ensures host.Valid() && host.nextId == old(host.nextId) && host.starts == old(host.starts)
      ensures result.id == None && host.containers == Cleared(old(host.containers), oldId, result)
      ensures result.removed ==> oldId.Some? && oldId.value in old(host.containers)
      ensures result.stopped ==> oldId.Some? && oldId.value in old(host.containers) && wasRunning
      ensures ok ==> result.removed == oldId.Some? && host.faults == old(host.faults)
      ensures !ok ==> !result.removed
      ensures !ok && (oldId.Some? ==> oldId.value in old(host.containers)) ==> host.faults > old(host.faults)
      ensures host.faults >= old(host.faults)
    {
      result := Recreation(None, Created, false, false);
      ok := true;
      if !HasPrefix(image, "sha256:") {
        ok := host.Pull(image);
      }
      if ok && oldId.Some? {
        result, ok := RemoveOriginal(oldId.value, wasRunning);
      }
    }

    /** Stop (only what ran) and remove. */
    method RemoveOriginal(id: ContainerId, wasRunning: bool) returns (result: Recreation, ok: bool)
      requires host.Valid()
      modifies host`containers, host`faults, host`trail
      ensures host.Valid()
      ensures result.id == None && host.containers == Cleared(old(host.containers), Some(id), result)
      ensures result.removed == ok && (result.stopped ==> wasRunning)
      ensures result.removed || result.stopped ==> id in old(host.containers)
      ensures ok ==> host.faults == old(host.faults)
      ensures !ok ==> host.faults == old(host.faults) + if id in old(host.containers) then 1 else 0
    {
      result := Recreation(None, Created, false, false);
      if wasRunning {
        ok := host.Stop(id);
        if !ok {
          return;
        }
        result := result.(stopped := true);
      }
      ok := host.Remove(id);
      result := result.(removed := ok);
    }

    /** Start the replacement, wait for its health check, look at it once more. */
    method Launch(id: ContainerId) returns (ok: bool)
      requires host.Valid() && id in host.containers
      modifies host
      ensures host.Valid() && host.nextId == old(host.nextId)
      ensures id in host.containers && host.containers == old(host.containers)[id := host.containers[id]]
      ensures host.containers[id] == old(host.containers)[id].(status := host.containers[id].status)
      ensures ok ==> host.containers[id].status == Running && host.faults == old(host.faults)
      ensures !ok ==> host.faults > old(host.faults)
    {
      ok := host.Start(id);
      if !ok {
        return;
      }
      ok := host.WaitHealthy(id);
      if !ok {
        return;
      }
      var inspected := host.Inspect(id);
      ok := inspected.Some?;
    }

    /** The second half: create, check what Docker made of it, and start it if its
        predecessor ran. */
    method Build(before: Container, image: string) returns (id: Option<ContainerId>, state: Status, ok: bool)
      requires host.Valid()
      modifies host
      ensures host.Valid() && host.nextId >= old(host.nextId)
      ensures id.None? ==> host.containers == old(host.containers)
      ensures id.Some? ==>
        && id.value == old(host.nextId) && id.value in host.containers
        && host.containers == old(host.containers)[id.value := host.containers[id.value]]
        && host.containers[id.value].name == before.name
      ensures ok ==>
        && id.Some? && RecreatedFrom(before, image, host.containers[id.value])
        && state == host.containers[id.value].status && host.faults == old(host.faults)
      ensures !ok && NameFree(old(host.containers), before.name) ==> host.faults > old(host.faults)
      ensures host.faults >= old(host.faults)
      ensures !IsRunning(before.status) ==> host.starts == old(host.starts)
    {
      var plan := before.spec.(image := image);
      ok, state := false, Created;
      id := host.Create(before.name, plan);
      if id.None? {
        return;
      }
      var created := host.Inspect(id.value);
      if created.None? || !Faithful(plan, created.value.spec) {
        return;
      }
      if !IsRunning(before.status) {
        ok := true;
        return;
      }
      ok := Launch(id.value);
      state := if ok then Running else Created;
    }

    /** The first failing call ends a recreation; the result says how far it got. */
    method Recreate(oldId: Option<ContainerId>, before: Container, image: string) returns (result: Recreation, ok: bool)
      requires host.Valid()
      modifies host
      ensures host.Valid() && host.nextId >= old(host.nextId)
      ensures Attempted(old(host.containers), host.containers, old(host.nextId), oldId, before, result)
      ensures ok ==>
        && result.id.Some? && RecreatedFrom(before, image, host.containers[result.id.value])
        && result.state == host.containers[result.id.value].status
        && host.faults == old(host.faults) && SafeToRecreate(before.status)
      ensures !ok && old(Targetable(oldId, before.name)) && SafeToRecreate(before.status) ==>
                host.faults > old(host.faults)
      ensures host.faults >= old(host.faults)
      ensures !IsRunning(before.status) ==> host.starts == old(host.starts)
    {
      result, ok := Recreation(None, Created, false, false), false;
      if !SafeToRecreate(before.status) {
        return;
      }
      result, ok := Clear(oldId, IsRunning(before.status), image);
      if !ok {
        return;
      }
      var id, state, built := Build(before, image);
      result, ok := result.(id := id, state := state), built;
    }

    /** Recreates the container on the image it had; `liveId` is the container to
        clear away first, if the failed attempt left one. */
    method Revert(originalId: ContainerId, liveId: Option<ContainerId>, before: Container)
      returns (out: Outcome, ghost attempt: Recreation)
      requires host.Valid()
      modifies host, store
      ensures host.Valid()
      ensures Faults() >= old(Faults())
      ensures !IsRunning(before.status) ==> host.starts == old(host.starts)
      ensures store.watches == old(store.watches)
      ensures Attempted(old(host.containers), host.containers, old(host.nextId), liveId, before, attempt)
      ensures RevertOutcome(old(store.rows), store.rows, host.containers, originalId, before, attempt,
                            Faults() - old(Faults()), out)
      ensures out.RevertFailed? && old(Targetable(liveId, before.name)) && SafeToRecreate(before.status) ==>
                Faults() > old(Faults())
    {
      var result, ok := Recreate(liveId, before, before.spec.image);
      attempt := result;
      if !ok {
        return RevertFailed, attempt;
      }
      var recorded := RecordRevert(originalId, result.id.value, before, result.state);
      out := if recorded then Reverted(result.id.value) else RevertUnrecorded(result.id.value);
    }

    /** Writes the reverted row, keeping what the old row had recorded. */
    method RecordRevert(originalId: ContainerId, newId: ContainerId, before: Container, state: Status)
      returns (ok: bool)
      modifies store`rows, store`faults
      ensures ok ==>
        forall after: Container |
          after.name == before.name && after.spec.stack == before.spec.stack && after.status == state ::
          RevertRecorded(old(store.rows), store.rows, originalId, newId, before, after,
                         store.faults - old(store.faults))
      ensures !ok ==> store.rows == old(store.rows) && store.faults > old(store.faults)
      ensures store.faults >= old(store.faults)
    {
      var previousImage, currentImage := "", before.spec.image;
      var row := store.GetContainer(originalId);
      if row.Some? {
        previousImage := row.value.previousImage;
        currentImage := StableImageReference(before.spec.image, row.value.currentImage);
      }
      ok := store.ReplaceContainer(originalId, newId,
        Row(before.name, before.spec.stack, state, currentImage, previousImage, false, false));
    }

    /** The original still exists: start it again if it was stopped. */
    method FailBeforeRemoval(originalId: ContainerId, stopped: bool) returns (out: Outcome)
      requires host.Valid() && originalId in host.containers
      modifies host
      ensures host.Valid()
      ensures out == KeptOriginal || out == RestartFailed
      ensures out == KeptOriginal ==>
        && host.faults == old(host.faults)
        && host.containers == if stopped then Restarted(old(host.containers), originalId) else old(host.containers)
      ensures out == RestartFailed ==>
                stopped && host.faults == old(host.faults) + 1 && host.containers == old(host.containers)
      ensures !stopped ==> host.starts == old(host.starts)
    {
      if stopped {
        var started := host.Start(originalId);
        if !started {
          return RestartFailed;
        }
      }
      return KeptOriginal;
    }

    /** What Update and Rollback do when recreate or the commit failed. */
    method Recover(id: ContainerId, before: Container, result: Recreation, ghost start: map<ContainerId, Container>,
                   ghost made: ContainerId, ghost used: nat)
      returns (out: Outcome)
      requires host.Valid() && id in start && start[id] == before && made !in start
      requires Attempted(start, host.containers, made, Some(id), before, result)
      requires NameFree(start - {id}, before.name)
      requires result.removed || result.stopped ==> used >= 1
      requires host.nextId !in start
      modifies host, store
      ensures host.Valid()
      ensures Faults() >= old(Faults())
      ensures !IsRunning(before.status) ==> host.starts == old(host.starts)
      ensures !out.Refused?
      ensures NotCommitted(World(start, old(store.rows), old(store.watches)), Snapshot(), id,
                           used + Faults() - old(Faults()), out)
    {
      if !result.removed {
        RestartRestores(start, id, result);
        out := FailBeforeRemoval(id, result.stopped);
      } else {
        ghost var mid, made' := host.containers, host.nextId;
        LeftoverIsTargetable(start, mid, made, id, before, result);
        ghost var attempt;
        out, attempt := Revert(id, result.id, before);
        RevertIsNotCommitted(World(start, old(store.rows), old(store.watches)), mid, Snapshot(), made, made', id,
                             result, attempt,
                             used, Faults() - old(Faults()), out);
      }
    }

    /** The durable commit of an update: the new row, and for a running container
        its crash watch, in one transaction. */
    method CommitUpdate(id: ContainerId, newId: ContainerId, state: Status, before: Container, definedImage: string,
                        now: int)
      returns (ok: bool, ghost closed: bool)
      requires newId in host.containers && host.containers[newId].restartCount == 0
      modifies store, host`faults
      ensures store.crashThreshold == old(store.crashThreshold) && store.crashWindow == old(store.crashWindow)
      ensures Faults() >= old(Faults())
      ensures ok ==>
        && store.rows == ReplacedRows(old(store.rows), id, newId,
             Row(before.name, before.spec.stack, state, definedImage, before.imageId, false, false))
        && store.watches ==
           (if state == Running
            then old(store.watches)[before.name := Armed(newId, now, store.crashWindow, store.crashThreshold, 0)]
            else if closed then ClosedWatches(old(store.watches), before.name, "not_running")
            else old(store.watches))
        && (Faults() == old(Faults()) ==> closed)
      ensures !ok ==> store.rows == old(store.rows) && store.watches == old(store.watches) && Faults() > old(Faults())
    {
      var row := Row(before.name, before.spec.stack, state, definedImage, before.imageId, false, false);
      closed := true;
      if state == Running {
        var settings := store.GetCrashLoopSettings();
        if settings.None? {
          return false, closed;
        }
        var restarts := 0;
        var inspected := host.Inspect(newId);
        if inspected.Some? {
          restarts := inspected.value.restartCount;
        }
        ok := store.ReplaceContainerAndArmRollback(id, newId, row,
          Armed(newId, now, settings.value.1, settings.value.0, restarts));
      } else {
        ok := store.ReplaceContainer(id, newId, row);
        if ok {
          closed := store.CompleteRollbackWatch(before.name, "not_running");
        }
      }
    }

    /** Update, once the guard let it in. */
    method UpdateHeld(id: ContainerId, target: string, now: int) returns (out: Outcome)
      requires host.Valid()
      modifies host, store
      ensures host.Valid() && !out.Refused?
      ensures Faults() >= old(Faults())
      ensures UpdateResult(old(Snapshot()), Snapshot(), id, target, now, old(store.crashThreshold),
                           old(store.crashWindow), Faults() - old(Faults()), out)
      ensures NeverStarted(old(host.containers), id) ==> host.starts == old(host.starts)
      ensures Faults() == old(Faults()) ==> (out.Committed? <==> Recreatable(old(host.containers), id))
    {
      var inspected := host.Inspect(id);
      if inspected.None? {
        return NothingDone;
      }
      var before := inspected.value;
      var definedImage := target;
      var row := store.GetContainer(id);
      if row.Some? {
        definedImage := StableImageReference(target, row.value.currentImage);
      }
      out := UpdateInspected(id, before, target, definedImage, row.Some?, now, Faults() - old(Faults()));
    }

    /** Update, once the container and its row were read. */
    method UpdateInspected(id: ContainerId, before: Container, target: string, definedImage: string, ghost looked: bool,
                           now: int, ghost used: nat)
      returns (out: Outcome)
      requires host.Valid() && id in host.containers && host.containers[id] == before
      requires looked ==> id in store.rows
      requires definedImage == if looked then StableImageReference(target, store.rows[id].currentImage) else target
      requires used == 0 && id in store.rows ==> looked
      modifies host, store
      ensures host.Valid() && !out.Refused?
      ensures Faults() >= old(Faults())
      ensures UpdateResult(old(Snapshot()), Snapshot(), id, target, now, old(store.crashThreshold),
                           old(store.crashWindow), used + Faults() - old(Faults()), out)
      ensures !IsRunning(before.status) ==> host.starts == old(host.starts)
      ensures Faults() == old(Faults()) ==> (out.Committed? <==> Recreatable(old(host.containers), id))
    {
      ghost var w, made := Snapshot(), host.nextId;
      assert NameFree(w.containers - {id}, before.name);
      ghost var closed;
      var result, ok;
      result, ok, closed := RecreateAndCommit(id, before, target, definedImage, looked, now);
      if ok {
        return Committed(result.id.value);
      }
      out := Recover(id, before, result, w.containers, made, Faults() - old(Faults()));
      NotCommittedMonotone(w, Snapshot(), id, Faults() - old(Faults()), used + Faults() - old(Faults()), out);
    }

    /** The way forward of an update: recreate on the target, then commit. */
    method RecreateAndCommit(id: ContainerId, before: Container, target: string, definedImage: string,
                             ghost looked: bool, now: int)
      returns (result: Recreation, ok: bool, ghost closed: bool)
      requires host.Valid() && id in host.containers && host.containers[id] == before
      requires looked ==> id in store.rows
      requires definedImage == if looked then StableImageReference(target, store.rows[id].currentImage) else target
      modifies host, store
      ensures host.Valid() && host.nextId >= old(host.nextId)
      ensures Faults() >= old(Faults())
      ensures Attempted(old(host.containers), host.containers, old(host.nextId), Some(id), before, result)
      ensures ok ==>
        && result.id.Some? && SafeToRecreate(before.status) && (Faults() == old(Faults()) ==> closed)
        && UpdateCommitted(old(Snapshot()), Snapshot(), id, result.id.value, target, looked,
                           Armed(result.id.value, now, old(store.crashWindow), old(store.crashThreshold), 0), closed)
      ensures !ok ==> store.rows == old(store.rows) && store.watches == old(store.watches)
      ensures !ok && SafeToRecreate(before.status) ==> Faults() > old(Faults())
      ensures !IsRunning(before.status) ==> host.starts == old(host.starts)
    {
      ghost var w, made := Snapshot(), host.nextId;
      closed := true;
      result, ok := Recreate(Some(id), before, target);
      if ok {
        AttemptSwaps(w.containers, host.containers, made, id, result);
        ok, closed := CommitUpdate(id, result.id.value, result.state, before, definedImage, now);
      }
    }

    /** Update under the guard's key. */
    method UpdateGuarded(name: string, id: ContainerId, target: string, now: int) returns (out: Outcome)
      requires host.Valid()
      modifies host, store, guard
      ensures host.Valid()
      ensures Faults() >= old(Faults())
      ensures UpdateResult(old(Snapshot()), Snapshot(), id, target, now, old(store.crashThreshold),
                           old(store.crashWindow), Faults() - old(Faults()), out)
      ensures NeverStarted(old(host.containers), id) ==> host.starts == old(host.starts)
      ensures out == Refused(true) <==> old(guard.maintenance)
      ensures GuardRestored(old(guard.State()), guard.State())
      ensures Faults() == old(Faults()) ==>
        (out.Committed? <==> Recreatable(old(host.containers), id) && Admits(old(guard.State()), name))
    {
      var answer := guard.Begin(name, UpdateKind);
      if answer != Started {
        return Refused(answer.InMaintenance?);
      }
      out := UpdateHeld(id, target, now);
      EndUndoesBegin(old(guard.State()), name, UpdateKind);
      guard.End(name, UpdateKind);
    }

    /** Update. The guard is keyed by the row's name, or by the ID when there is no row. */
    method Update(id: ContainerId, target: string, now: int) returns (out: Outcome)
      requires host.Valid()
      modifies host, store, guard
      ensures host.Valid()
      ensures Faults() >= old(Faults())
      ensures UpdateResult(old(Snapshot()), Snapshot(), id, target, now, old(store.crashThreshold),
                           old(store.crashWindow), Faults() - old(Faults()), out)
      ensures id in old(host.containers) && Faults() <= old(Faults()) + 1 && !out.Committed? ==>
        exists live :: RestoredAs(old(Snapshot()), Snapshot(), id, live)
      ensures NeverStarted(old(host.containers), id) ==> host.starts == old(host.starts)
      ensures out == Refused(true) <==> old(guard.maintenance)
      ensures GuardRestored(old(guard.State()), guard.State())
      ensures Faults() == old(Faults()) ==>
        (out.Committed? <==>
           && Recreatable(old(host.containers), id)
           && Admits(old(guard.State()), UpdateKey(old(store.rows), id)))
    {
      ghost var w := Snapshot();
      var name := Decimal(id);
      var row := store.GetContainer(id);
      if row.Some? {
        name := row.value.name;
      }
      ghost var used := Faults() - old(Faults());
      out := UpdateGuarded(name, id, target, now);
      UpdateResultMonotone(w, Snapshot(), id, target, now, old(store.crashThreshold), old(store.crashWindow),
                           Faults() - old(Faults()) - used, Faults() - old(Faults()), out);
      SingleFault(w, Snapshot(), id, Faults() - old(Faults()), out);
    }

    /** Rollback, once the guard let it in. */
    method RollbackHeld(id: ContainerId, row: Row, reason: string) returns (out: Outcome)
      requires host.Valid() && id in store.rows && store.rows[id] == row && row.previousImage != ""
      modifies host, store
      ensures host.Valid() && !out.Refused?
      ensures Faults() >= old(Faults())
      ensures RollbackResult(old(Snapshot()), Snapshot(), id, reason, Faults() - old(Faults()), out)
      ensures NeverStarted(old(host.containers), id) ==> host.starts == old(host.starts)
      ensures Faults() == old(Faults()) ==> (out.Committed? <==> Recreatable(old(host.containers), id))
    {
      ghost var w, made := Snapshot(), host.nextId;
      var inspected := host.Inspect(id);
      if inspected.None? {
        return NothingDone;
      }
      var before := inspected.value;
      assert NameFree(w.containers - {id}, before.name);
      var result, ok := Recreate(Some(id), before, row.previousImage);
      if ok {
        AttemptSwaps(w.containers, host.containers, made, id, result);
        ok := store.ReplaceContainerAndCompleteRollback(id, result.id.value,
          Row(before.name, before.spec.stack, result.state, row.currentImage, before.imageId, false, false), reason);
        if ok {
          var flagged := store.SetUpdateAvailable(result.id.value, true);
          out := Committed(result.id.value);
          assert RollbackCommitted(w, Snapshot(), id, out.id, reason, flagged);
          return;
        }
      }
      out := Recover(id, before, result, w.containers, made, Faults() - old(Faults()));
    }

    /** Rollback to the recorded previous image. */
    method Rollback(id: ContainerId, automatic: bool) returns (out: Outcome)
      requires host.Valid()
      modifies host, store, guard
      ensures host.Valid()
      ensures Faults() >= old(Faults())
      ensures RollbackResult(old(Snapshot()), Snapshot(), id,
                             if automatic then "automatic_rollback" else "manual_rollback",
                             Faults() - old(Faults()), out)
      ensures id in old(host.containers) && Faults() <= old(Faults()) + 1 && !out.Committed? ==>
        exists live :: RestoredAs(old(Snapshot()), Snapshot(), id, live)
      ensures NeverStarted(old(host.containers), id) ==> host.starts == old(host.starts)
      ensures out == Refused(true) ==> old(guard.maintenance)
      ensures old(guard.maintenance) ==> Snapshot() == old(Snapshot()) && (out == Refused(true) || out == NothingDone)
      ensures GuardRestored(old(guard.State()), guard.State())
      ensures Faults() == old(Faults()) ==>
        && (out.Committed? <==>
              && CanRollBack(old(store.rows), id) && Recreatable(old(host.containers), id)
              && Admits(old(guard.State()), old(store.rows)[id].name))
        && (out == Refused(true) <==> CanRollBack(old(store.rows), id) && old(guard.maintenance))
    {
      var row := store.GetContainer(id);
      if row.None? || row.value.previousImage == "" {
        out := NothingDone;
      } else {
        var answer := guard.Begin(row.value.name, RollbackKind);
        if answer != Started {
          out := Refused(answer.InMaintenance?);
        } else {
          out := RollbackHeld(id, row.value, RollbackReason(automatic));
          EndUndoesBegin(old(guard.State()), row.value.name, RollbackKind);
          guard.End(row.value.name, RollbackKind);
        }
      }
      SingleFault(old(Snapshot()), Snapshot(), id, Faults() - old(Faults()), out);
    }
  }

  function RollbackReason(automatic: bool): string {
    if automatic then "automatic_rollback" else "manual_rollback"
  }

  /** The container exists in one of the three states a recreation can start from. */
  predicate Recreatable(containers: map<ContainerId, Container>, id: ContainerId) {
    && id in containers
    && (containers[id].status == Running || containers[id].status == Exited || containers[id].status == Created)
  }

  /** The gate is open and the key is free. */
  predicate Admits(g: GuardState, key: string) {
    !g.maintenance && key !in g.active
  }

  /** What an update asks the guard for when its lookup works: the row's name, else the ID. */
  function UpdateKey(rows: Rows, id: ContainerId): string {
    if id in rows then rows[id].name else Decimal(id)
  }

  predicate CanRollBack(rows: Rows, id: ContainerId) {
    id in rows && rows[id].previousImage != ""
  }

  /** The container is absent or not running, so its workload must not be executed. */
  predicate NeverStarted(containers: map<ContainerId, Container>, id: ContainerId) {
    id in containers ==> !IsRunning(containers[id].status)
  }

  predicate GuardRestored(g: GuardState, g': GuardState) {
    && g'.active == g.active && g'.maintenance == g.maintenance
    && Gauge(g', UpdateKind) == Gauge(g, UpdateKind) && Gauge(g', RollbackKind) == Gauge(g, RollbackKind)
  }

  function Restarted(containers: map<ContainerId, Container>, id: ContainerId): map<ContainerId, Container>
    requires id in containers
  {
    containers[id := containers[id].(status := Running)]
  }

  /** The old row's images survive unless its lookup failed. */
  ghost predicate RevertRecorded(rows: Rows, rows': Rows, id: ContainerId, newId: ContainerId, before: Container,
                                 after: Container, faults: int) {
    || (id in rows && rows' == RevertedRows(rows, id, newId, before, after, true))
    || (rows' == RevertedRows(rows, id, newId, before, after, false) && (id in rows ==> faults >= 1))
  }

  function Without(containers: map<ContainerId, Container>, id: Option<ContainerId>): map<ContainerId, Container> {
    if id.Some? then containers - {id.value} else containers
  }

  /** The rows after a recorded revert. */
  function RevertedRows(rows: Rows, id: ContainerId, newId: ContainerId, before: Container, after: Container,
                        looked: bool): Rows
    requires looked ==> id in rows
  {
    ReplacedRows(rows, id, newId,
      NewRow(after,
             if looked then StableImageReference(before.spec.image, rows[id].currentImage) else before.spec.image,
             if looked then rows[id].previousImage else ""))
  }

  /** How far a recreation got: `made` is the ID the next Create hands out. */
  ghost predicate Attempted(start: map<ContainerId, Container>, after: map<ContainerId, Container>, made: ContainerId,
                            oldId: Option<ContainerId>, before: Container, r: Recreation) {
    && (r.removed || r.stopped ==> oldId.Some? && oldId.value in start && SafeToRecreate(before.status))
    && (r.stopped ==> IsRunning(before.status))
    && (r.id.None? ==> after == Cleared(start, oldId, r))
    && (r.id.Some? ==>
          && r.id.value == made && made in after && after[made].name == before.name
          && after == Cleared(start, oldId, r)[made := after[made]]
          && r.removed == oldId.Some? && SafeToRecreate(before.status))
  }

  /** What the outcome of a revert says about the rows and the recreated container. */
  ghost predicate RevertOutcome(rows: Rows, rows': Rows, after: map<ContainerId, Container>, id: ContainerId,
                                before: Container,
                                attempt: Recreation, faults: int, out: Outcome) {
    match out
    case RevertFailed => rows' == rows
    case RevertUnrecorded(newId) =>
      && rows' == rows && faults >= 1 && attempt.id == Some(newId)
      && newId in after && RecreatedFrom(before, before.spec.image, after[newId])
    case Reverted(newId) =>
      && attempt.id == Some(newId)
      && newId in after && RecreatedFrom(before, before.spec.image, after[newId])
      && RevertRecorded(rows, rows', id, newId, before, after[newId], faults)
    case _ => false
  }

  /** Starting a stopped original again brings back exactly the old containers. */
  lemma RestartRestores(start: map<ContainerId, Container>, id: ContainerId, r: Recreation)
    requires id in start && !r.removed && (r.stopped ==> start[id].status == Running)
    ensures id in Cleared(start, Some(id), r)
    ensures (if r.stopped then Restarted(Cleared(start, Some(id), r), id) else Cleared(start, Some(id), r)) == start
  {
  }

  /** A completed attempt replaced the container and touched nothing else. */
  lemma AttemptSwaps(start: map<ContainerId, Container>, after: map<ContainerId, Container>, made: ContainerId,
                     id: ContainerId, r: Recreation)
    requires id in start && made !in start && r.id.Some?
    requires Attempted(start, after, made, Some(id), start[id], r)
    ensures Swapped(start, after, id, made)
  {
  }

  /** Only a commit touches the watches. */
  lemma NotCommittedKeepsWatches(w: World, w': World, id: ContainerId, faults: int, out: Outcome)
    requires NotCommitted(w, w', id, faults, out)
    ensures w'.watches == w.watches
  {
  }

  lemma NotCommittedMonotone(w: World, w': World, id: ContainerId, fewer: int, faults: int, out: Outcome)
    requires NotCommitted(w, w', id, fewer, out) && fewer <= faults
    ensures NotCommitted(w, w', id, faults, out)
  {
  }

  lemma UpdateResultMonotone(w: World, w': World, id: ContainerId, target: string, now: int, threshold: int,
                             window: int,
                             fewer: int, faults: int, out: Outcome)
    requires 0 <= fewer <= faults && UpdateResult(w, w', id, target, now, threshold, window, fewer, out)
    ensures UpdateResult(w, w', id, target, now, threshold, window, faults, out)
  {
  }

  /** After a failed attempt that removed the original, either its replacement is
      there to be removed or the name is free. */
  lemma LeftoverIsTargetable(start: map<ContainerId, Container>, mid: map<ContainerId, Container>, made: ContainerId,
                             id: ContainerId, before: Container, r: Recreation)
    requires id in start && r.removed && NameFree(start - {id}, before.name)
    requires Attempted(start, mid, made, Some(id), before, r)
    ensures if r.id.Some? then r.id.value in mid && mid[r.id.value].name == before.name else NameFree(mid, before.name)
  {
  }

  lemma RevertIsNotCommitted(w: World, mid: map<ContainerId, Container>, w': World, made: ContainerId,
                             made': ContainerId,
                             id: ContainerId, r: Recreation, attempt: Recreation, used: int, more: int, out: Outcome)
    requires id in w.containers && r.removed && made !in w.containers && made' !in w.containers && used >= 1
    requires Attempted(w.containers, mid, made, Some(id), w.containers[id], r)
    requires Attempted(mid, w'.containers, made', r.id, w.containers[id], attempt)
    requires RevertOutcome(w.rows, w'.rows, w'.containers, id, w.containers[id], attempt, more, out)
    requires out.RevertFailed? ==> more >= 1
    requires w'.watches == w.watches
    ensures NotCommitted(w, w', id, used + more, out)
  {
  }

  /** The containers after stopping and removing got as far as `r` says. */
  function Cleared(before: map<ContainerId, Container>, oldId: Option<ContainerId>,
                   r: Recreation): map<ContainerId, Container> {
    if oldId.None? || oldId.value !in before then before
    else if r.removed then before - {oldId.value}
    else if r.stopped then before[oldId.value := Stopped(before[oldId.value])]
    else before
  }

  // Single-fault atomicity.

  ghost predicate UniqueNames(containers: map<ContainerId, Container>) {
    forall i, j | i in containers && j in containers && containers[i].name == containers[j].name :: i == j
  }

  predicate HoldsTag(row: Row) {
    row.currentImage != "" && !IsDigestReference(row.currentImage)
  }

  /** The row records the reference the container was made from, unless that was a digest. */
  predicate InStep(row: Row, c: Container) {
    IsDigestReference(c.spec.image) || row.currentImage == c.spec.image
  }

  /** The row of `id`, if there was one, moved to `live` and kept its previous image.
      A tag was kept unless the container was reverted out of step with its row. */
  ghost predicate RowRestored(w: World, w': World, id: ContainerId, live: ContainerId)
    requires id in w.containers
  {
    && w'.rows.Keys == w.rows.Keys - {id} + (if id in w.rows || live != id then {live} else {})
    && (forall i | i in w.rows && i != id && i != live :: w'.rows[i] == w.rows[i])
    && (id in w.rows ==>
          && w'.rows[live].previousImage == w.rows[id].previousImage
          && (HoldsTag(w.rows[id]) ==>
                (w'.rows[live].currentImage == w.rows[id].currentImage
                 <==> live == id || InStep(w.rows[id], w.containers[id]))))
  }

  /** Back to exactly one container of the name, with the old settings, image
      reference and run state, and a row that knows it. */
  ghost predicate RestoredAs(w: World, w': World, id: ContainerId, live: ContainerId) {
    && id in w.containers && live in w'.containers
    && w'.containers[live].name == w.containers[id].name
    && (forall i | i in w'.containers && w'.containers[i].name == w.containers[id].name :: i == live)
    && Faithful(w.containers[id].spec, w'.containers[live].spec)
    && IsRunning(w'.containers[live].status) == IsRunning(w.containers[id].status)
    && OthersUntouched(w, w', id)
    && RowRestored(w, w', id, live)
    && w'.watches == w.watches
  }

  lemma FaithfulToItself(spec: Spec)
    ensures Faithful(spec, spec)
  {
    SubsetReflexive(spec.settings);
  }

  /** If at most one Docker or store call fails during Update or Rollback, the
      operation committed or everything is as it was. */
  lemma SingleFaultAtomicity(w: World, w': World, id: ContainerId, faults: int,
                             out: Outcome) returns (live: ContainerId)
    requires UniqueNames(w.containers) && id in w.containers && faults <= 1
    requires NotCommitted(w, w', id, faults, out)
    ensures RestoredAs(w, w', id, live)
  {
    live := id;
    if out.Reverted? {
      live := out.id;
      var looked := id in w.rows;
      assert RevertedTo(w, w', id, live, looked);
      RevertedIsRestored(w, w', id, live, looked);
    } else {
      assert w' == w;
      FaithfulToItself(w.containers[id].spec);
    }
  }

  lemma SingleFault(w: World, w': World, id: ContainerId, faults: int, out: Outcome)
    requires UniqueNames(w.containers)
    requires !out.Committed? ==> NotCommitted(w, w', id, faults, out)
    ensures id in w.containers && faults <= 1 && !out.Committed? ==> exists live :: RestoredAs(w, w', id, live)
  {
    if id in w.containers && faults <= 1 && !out.Committed? {
      var live := SingleFaultAtomicity(w, w', id, faults, out);
    }
  }

  lemma RevertedIsRestored(w: World, w': World, id: ContainerId, live: ContainerId, looked: bool)
    requires UniqueNames(w.containers) && RevertedTo(w, w', id, live, looked) && looked == (id in w.rows)
    ensures RestoredAs(w, w', id, live)
  {
  }

  /** When the revert records its row, a stored tag survives exactly when it was the
      container's own reference or the container was made from a digest. */
  lemma RevertKeepsTagIffInStep(w: World, w': World, id: ContainerId, newId: ContainerId)
    requires RevertedTo(w, w', id, newId, true) && HoldsTag(w.rows[id])
    ensures newId in w'.rows
    ensures w'.rows[newId].currentImage == w.rows[id].currentImage <==> InStep(w.rows[id], w.containers[id])
  {
  }
}
