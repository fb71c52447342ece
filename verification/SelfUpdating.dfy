/** Replacing the daemon's own container: the gate discipline of the request, and
    the helper that keeps the original as a recovery copy until its replacement
    is healthy. */
module SelfUpdating {
  import opened Options
  import opened CrashWatch
  import opened DockerHost
  import opened Operations
  import opened Updating

  datatype RequestResult = Accepted | RefusedActive | RefusedUnsafe | RequestFailed

  /** The helper is a new running container on the target image. */
  predicate HelperRuns(before: map<ContainerId, Container>, after: map<ContainerId, Container>, id: ContainerId,
                       name: string, target: string) {
    && id !in before && id in after && after[id].name == name
    && after[id].spec.image == target && after[id].status == Running
  }

  /** StartSelfUpdate. The identity check and the schedule horizon are computed
      elsewhere; `blockers` is None when that check itself failed. Every way out but
      acceptance reopens the gate. */
  method StartSelfUpdate(host: Host, guard: OperationGuard, identified: bool, configured: bool,
                         blockers: Option<seq<string>>, selfId: ContainerId, target: string,
                         helperName: string, helper: Spec)
    returns (r: RequestResult)
    requires host.Valid()
    modifies host, guard
    ensures host.Valid()
    ensures r == RefusedActive <==> !GateCanClose(old(guard.State()))
    ensures r == Accepted ==>
      && identified && configured && blockers == Some([])
      && guard.State() == old(guard.State()).(maintenance := true)
      && GateCanClose(old(guard.State()))
    ensures r != Accepted ==> guard.State() == old(guard.State())
    ensures r == Accepted ==> HelperRuns(old(host.containers), host.containers, old(host.nextId), helperName, target)
    ensures host.faults == old(host.faults) ==>
      (r == Accepted <==>
         && GateCanClose(old(guard.State())) && identified && configured && blockers == Some([])
         && selfId in old(host.containers) && NameFree(old(host.containers), helperName))
    ensures forall id | id in old(host.containers) ::
              id in host.containers && host.containers[id] == old(host.containers)[id]
  {
    var busy, closed := guard.BeginMaintenance();
    if !closed {
      return RefusedActive;
    }
    r := Prepare(host, identified, configured, blockers, selfId, target, helperName, helper);
    if r != Accepted {
      guard.EndMaintenance();
    }
  }

  /** The part of StartSelfUpdate that runs behind the closed gate. */
  method Prepare(host: Host, identified: bool, configured: bool, blockers: Option<seq<string>>,
                 selfId: ContainerId, target: string, helperName: string, helper: Spec)
    returns (r: RequestResult)
    requires host.Valid()
    modifies host
    ensures host.Valid() && r != RefusedActive
    ensures r == Accepted ==> identified && configured && blockers == Some([])
    ensures r == Accepted ==> HelperRuns(old(host.containers), host.containers, old(host.nextId), helperName, target)
    ensures host.faults == old(host.faults) ==>
      (r == Accepted <==>
         && identified && configured && blockers == Some([])
         && selfId in old(host.containers) && NameFree(old(host.containers), helperName))
    ensures forall id | id in old(host.containers) ::
              id in host.containers && host.containers[id] == old(host.containers)[id]
  {
    if !identified {
      return RefusedUnsafe;
    }
    if !configured || blockers.None? {
      return RequestFailed;
    }
    if blockers.value != [] {
      return RefusedUnsafe;
    }
    var pulled := host.Pull(target);
    if !pulled {
      return RequestFailed;
    }
    var parent := host.Inspect(selfId);
    if parent.None? {
      return RequestFailed;
    }
    var helperId := host.Create(helperName, helper.(image := target));
    if helperId.None? {
      return RequestFailed;
    }
    var started := host.Start(helperId.value);
    if !started {
      var _ := host.Remove(helperId.value);
      return RequestFailed;
    }
    return Accepted;
  }

  // The helper.

  datatype HelperResult =
    | Untouched                          // failed before anything changed
    | Replaced(id: ContainerId)          // success
    | ReplacedButKept(id: ContainerId)   // the replacement is up, the recovery copy could not be removed
    | Restored                           // the original is back
    | Stranded                           // recovery itself failed

  function RecoveryName(name: string, token: string): string {
    name + "-doupro-recovery-" + token
  }

  /** The daemon can still be brought up: its original exists, or a replacement
      under its name does, which passed its health check if the original ran. */
  ghost predicate Recoverable(m: Moment, parentId: ContainerId, parent: Container) {
    parentId in m.containers || exists id :: IsReplacement(m, id, parent)
  }

  ghost predicate IsReplacement(m: Moment, id: ContainerId, parent: Container) {
    && id in m.containers && m.containers[id].name == parent.name
    && (IsRunning(parent.status) ==> id in m.healthy && m.containers[id].status == Running)
  }

  /** Containers other than the parent and at most one new one are as they were. */
  ghost predicate BystandersKept(before: map<ContainerId, Container>, after: map<ContainerId, Container>,
                                 parentId: ContainerId) {
    forall id | id in before && id != parentId :: id in after && after[id] == before[id]
  }

  /** None of these containers was gone at any moment since. */
  ghost predicate StillThere(containers: map<ContainerId, Container>, before: seq<Moment>, trail: seq<Moment>) {
    forall k, i | |before| <= k < |trail| && i in containers :: i in trail[k].containers
  }

  lemma StillThereLonger(a: map<ContainerId, Container>, b: map<ContainerId, Container>,
                         before: seq<Moment>, mid: seq<Moment>, trail: seq<Moment>)
    requires a.Keys <= b.Keys && mid <= trail && StillThere(a, before, mid) && StillThere(b, mid, trail)
    ensures StillThere(a, before, trail)
  {
  }

  /** Create the replacement and, if the parent ran, start it and wait for it. */
  method Launch(host: Host, parent: Container, target: string) returns (id: Option<ContainerId>, ok: bool)
    requires host.Valid()
    modifies host
    ensures host.Valid() && old(host.trail) <= host.trail
    ensures host.faults >= old(host.faults) && old(host.nextId) !in old(host.containers)
    ensures id.None? ==> host.containers == old(host.containers)
    ensures id.Some? ==>
      && id.value == old(host.nextId) && id.value in host.containers && host.containers[id.value].name == parent.name
      && host.containers == old(host.containers)[id.value := host.containers[id.value]]
    ensures ok ==> id.Some? && IsReplacement(Moment(host.containers, host.healthy), id.value, parent)
    ensures ok && host.faults == old(host.faults) ==>
              Faithful(parent.spec.(image := target), host.containers[id.value].spec)
    ensures !ok && NameFree(old(host.containers), parent.name) ==> host.faults > old(host.faults)
    ensures StillThere(old(host.containers), old(host.trail), host.trail)
  {
    ok := false;
    id := host.Create(parent.name, parent.spec.(image := target));
    if id.None? {
      return;
    }
    ok := true;
    if IsRunning(parent.status) {
      ghost var trail, containers := host.trail, host.containers;
      ok := StartHealthy(host, id.value);
      StillThereLonger(old(host.containers), containers, old(host.trail), trail, host.trail);
    }
  }

  /** Start the replacement and wait for its health check. */
  method StartHealthy(host: Host, id: ContainerId) returns (ok: bool)
    requires host.Valid() && id in host.containers
    modifies host
    ensures host.Valid() && old(host.trail) <= host.trail
    ensures id in host.containers && host.containers == old(host.containers)[id := host.containers[id]]
    ensures host.containers[id] == old(host.containers)[id].(status := host.containers[id].status)
    ensures ok ==> id in host.healthy && host.containers[id].status == Running && host.faults == old(host.faults)
    ensures !ok ==> host.faults > old(host.faults)
    ensures StillThere(old(host.containers), old(host.trail), host.trail)
  {
    ok := host.Start(id);
    if ok {
      ok := host.WaitHealthy(id);
    }
  }

  /** Drop the failed replacement and bring the original back under its name. */
  method Recover(host: Host, parentId: ContainerId, newId: Option<ContainerId>, parent: Container) returns (ok: bool)
    requires host.Valid() && parentId in host.containers
    requires newId.Some? ==> newId.value in host.containers && newId.value != parentId
    modifies host
    ensures host.Valid() && old(host.trail) <= host.trail
    ensures host.faults >= old(host.faults)
    ensures parentId in host.containers
    ensures BystandersKept(Without(old(host.containers), newId), host.containers, parentId)
    ensures host.faults == old(host.faults) ==>
              NameFree(Without(old(host.containers), newId) - {parentId}, parent.name) ==> ok
    ensures ok ==> host.containers[parentId] == old(host.containers)[parentId].(
      name := parent.name,
      status := if IsRunning(parent.status) then Running else old(host.containers)[parentId].status)
    ensures forall k | |old(host.trail)| <= k < |host.trail| :: parentId in host.trail[k].containers
  {
    if newId.Some? {
      var _ := host.Remove(newId.value);
    }
    ok := Reinstate(host, parentId, parent);
  }

  method Reinstate(host: Host, parentId: ContainerId, parent: Container) returns (ok: bool)
    requires host.Valid() && parentId in host.containers
    modifies host
    ensures host.Valid() && old(host.trail) <= host.trail
    ensures host.faults >= old(host.faults)
    ensures parentId in host.containers
    ensures host.containers == old(host.containers)[parentId := host.containers[parentId]]
    ensures host.faults == old(host.faults) && NameFree(old(host.containers) - {parentId}, parent.name) ==> ok
    ensures ok ==> host.containers[parentId] == old(host.containers)[parentId].(
      name := parent.name,
      status := if IsRunning(parent.status) then Running else old(host.containers)[parentId].status)
    ensures forall k | |old(host.trail)| <= k < |host.trail| :: parentId in host.trail[k].containers
  {
    ok := host.Rename(parentId, parent.name);
    if !ok {
      return;
    }
    if IsRunning(parent.status) {
      ok := host.Start(parentId);
    }
  }

  /** Stop what ran and move the original to its recovery name. */
  method SetAside(host: Host, parentId: ContainerId, parent: Container, token: string) returns (ok: bool)
    requires host.Valid() && parentId in host.containers && host.containers[parentId] == parent
    requires SafeToRecreate(parent.status)
    modifies host
    ensures host.Valid() && old(host.trail) <= host.trail
    ensures host.faults >= old(host.faults)
    ensures parentId in host.containers
    ensures host.containers == old(host.containers)[parentId := host.containers[parentId]]
    ensures ok ==> host.faults == old(host.faults)
    ensures ok ==> host.containers[parentId] == parent.(name := RecoveryName(parent.name, token),
                                                        status := StoppedStatus(parent.status))
    ensures !ok && host.faults <= old(host.faults) + 1
            && NameFree(old(host.containers) - {parentId}, RecoveryName(parent.name, token)) ==>
      host.faults > old(host.faults) && host.containers[parentId] == parent
    ensures forall k | |old(host.trail)| <= k < |host.trail| :: parentId in host.trail[k].containers
  {
    if IsRunning(parent.status) {
      ok := host.Stop(parentId);
      if !ok {
        return;
      }
      assert host.containers - {parentId} == old(host.containers) - {parentId};
    }
    ok := host.Rename(parentId, RecoveryName(parent.name, token));
    if !ok && IsRunning(parent.status) {
      var _ := host.Start(parentId);
    }
  }

  /** What one failing call at most leaves behind, given the original container. */
  ghost predicate Settled(m: Moment, parentId: ContainerId, parent: Container, target: string, faults: int,
                          r: HelperResult) {
    match r
    case Untouched => parentId in m.containers && m.containers[parentId] == parent
    case Restored => parentId in m.containers && m.containers[parentId] == parent
    case Replaced(id) =>
      && parentId !in m.containers && IsReplacement(m, id, parent)
      && (faults == 0 ==> Faithful(parent.spec.(image := target), m.containers[id].spec))
    case ReplacedButKept(id) =>
      && parentId in m.containers && IsReplacement(m, id, parent) && faults == 1
      && Faithful(parent.spec.(image := target), m.containers[id].spec)
    case Stranded => false
  }

  /** The rest of the helper, once the original waits under its recovery name. */
  method ReplaceAside(host: Host, parentId: ContainerId, parent: Container, target: string) returns (r: HelperResult)
    requires host.Valid() && parentId in host.containers && SafeToRecreate(parent.status)
    requires host.containers[parentId] == parent.(name := host.containers[parentId].name,
                                                  status := StoppedStatus(parent.status))
    requires NameFree(host.containers, parent.name)
    modifies host
    ensures host.Valid() && old(host.trail) <= host.trail
    ensures host.faults >= old(host.faults)
    ensures forall k | |old(host.trail)| <= k < |host.trail| :: Recoverable(host.trail[k], parentId, parent)
    ensures BystandersKept(old(host.containers), host.containers, parentId)
    ensures host.faults <= old(host.faults) + 1 ==>
      Settled(Moment(host.containers, host.healthy), parentId, parent, target, host.faults - old(host.faults), r)
    ensures host.faults == old(host.faults) ==> r.Replaced?
  {
    var newId, ok := Launch(host, parent, target);
    if ok {
      ghost var mid := Moment(host.containers, host.healthy);
      assert IsReplacement(mid, newId.value, parent) && newId.value != parentId;
      var removed := host.Remove(parentId);
      assert IsReplacement(Moment(host.containers, host.healthy), newId.value, parent);
      return if removed then Replaced(newId.value) else ReplacedButKept(newId.value);
    }
    assert NameFree(Without(host.containers, newId) - {parentId}, parent.name) by {
      assert Without(host.containers, newId) == old(host.containers);
    }
    ok := Recover(host, parentId, newId, parent);
    return if ok then Restored else Stranded;
  }

  /** RunSelfUpdateHelper. The host's trail holds every state a kill could leave. */
  method RunSelfUpdateHelper(host: Host, parentId: ContainerId, target: string, token: string) returns (r: HelperResult)
    requires host.Valid()
    modifies host
    ensures host.Valid()
    ensures parentId in old(host.containers) ==>
      forall k | |old(host.trail)| <= k < |host.trail| ::
          Recoverable(host.trail[k], parentId, old(host.containers)[parentId])
    ensures parentId in old(host.containers) ==> BystandersKept(old(host.containers), host.containers, parentId)
    ensures parentId in old(host.containers) && host.faults <= old(host.faults) + 1
            && NameFree(old(host.containers) - {parentId}, RecoveryName(old(host.containers)[parentId].name, token)) ==>
      Settled(Moment(host.containers, host.healthy), parentId, old(host.containers)[parentId], target,
              host.faults - old(host.faults), r)
    ensures Recreatable(old(host.containers), parentId) && host.faults == old(host.faults)
            && NameFree(old(host.containers) - {parentId}, RecoveryName(old(host.containers)[parentId].name, token)) ==>
      r.Replaced?
  {
    var inspected := host.Inspect(parentId);
    if inspected.None? || !SafeToRecreate(inspected.value.status) {
      return Untouched;
    }
    var parent := inspected.value;
    var aside := SetAside(host, parentId, parent, token);
    if !aside {
      return Untouched;
    }
    r := ReplaceAside(host, parentId, parent, target);
  }
}
