/** The Docker host as the updater sees it. Every call may fail without effect;
    `faults` counts the failures the host is to blame for. A call that fails
    because the caller named a container that does not exist, or asked for a name
    in use, is not counted: it is the caller's mistake. */
module DockerHost {
  import opened Options
  import opened CrashWatch
  import opened ImageReferences
  import opened JsonSubset
  import opened Text

  type ImageId = s: string | RawImageId(s) witness "sha256:" + seq(64, _ => '0')

  datatype Status = Running | Exited | Created | Paused | Restarting | Dead

  /** State.Running of an inspect response. */
  predicate IsRunning(s: Status) { s.Running? || s.Paused? || s.Restarting? }

  /** The create-time settings: the image reference, the compose stack label and
      everything else as JSON. */
  datatype Spec = Spec(image: string, stack: string, settings: Json)

  datatype Container = Container(name: string, spec: Spec, imageId: ImageId, status: Status, restartCount: nat)

  /** validateRecreation: Docker reports back what was asked for, perhaps with defaults added. */
  predicate Faithful(wanted: Spec, reported: Spec) {
    wanted.image == reported.image && wanted.stack == reported.stack && Subset(wanted.settings, reported.settings)
  }

  /** The image a reference names locally: a raw ID names itself. */
  function Resolve(images: map<string, ImageId>, image: string): Option<ImageId> {
    if RawImageId(image) then Some(image)
    else if image in images then Some(images[image])
    else None
  }

  ghost predicate NameFree(containers: map<ContainerId, Container>, name: string) {
    forall id | id in containers :: containers[id].name != name
  }

  /** The host at one point of a run. */
  datatype Moment = Moment(containers: map<ContainerId, Container>, healthy: set<ContainerId>)

  class Host {
    var containers: map<ContainerId, Container>
    var images: map<string, ImageId>        // local tags
    var nextId: ContainerId
    ghost var faults: nat
    ghost var starts: seq<ContainerId>      // every successful Start
    ghost var healthy: set<ContainerId>     // every container that passed its health check
    ghost var trail: seq<Moment>            // the host after every call that changed its containers

    /** Names are unique, IDs are handed out in order, and a container made from a
        raw image ID runs that image. */
    ghost predicate Valid()
      reads this
    {
      && (forall id | id in containers :: id < nextId)
      && (forall i, j | i in containers && j in containers && containers[i].name == containers[j].name :: i == j)
      && (forall id | id in containers && HasPrefix(containers[id].spec.image, "sha256:") ::
            containers[id].spec.image == containers[id].imageId)
      && (forall id | id in healthy :: id < nextId)
    }

    constructor ()
      ensures Valid() && containers == map[] && faults == 0 && starts == [] && trail == []
    {
      containers, images, nextId := map[], map[], 0;
      faults, starts, healthy, trail := 0, [], {}, [];
    }

    method Inspect(id: ContainerId) returns (info: Option<Container>)
      modifies this`faults
      ensures info.Some? ==> id in containers && info.value == containers[id] && faults == old(faults)
      ensures info.None? ==> faults == old(faults) + if id in containers then 1 else 0
    {
      var fails: bool := *;
      if id !in containers {
        return None;
      }
      if fails {
        faults := faults + 1;
        return None;
      }
      return Some(containers[id]);
    }

    /** A pull may move the local tag to any content. */
    method Pull(image: string) returns (ok: bool)
      modifies this`images, this`faults
      ensures ok ==> faults == old(faults) && image in images && images == old(images)[image := images[image]]
      ensures !ok ==> faults == old(faults) + 1 && images == old(images)
    {
      var fails: bool := *;
      if fails {
        faults := faults + 1;
        return false;
      }
      var content: ImageId := *;
      images := images[image := content];
      return true;
    }

    method Stop(id: ContainerId) returns (ok: bool)
      requires Valid()
      modifies this`containers, this`faults, this`trail
      ensures Valid()
      ensures ok ==>
        && id in old(containers) && faults == old(faults)
        && containers == old(containers)[id := Stopped(old(containers)[id])]
        && trail == old(trail) + [Moment(containers, healthy)]
      ensures !ok ==>
        && containers == old(containers) && trail == old(trail)
        && faults == old(faults) + if id in containers then 1 else 0
    {
      var fails: bool := *;
      if id !in containers {
        return false;
      }
      if fails {
        faults := faults + 1;
        return false;
      }
      containers := containers[id := containers[id].(status := StoppedStatus(containers[id].status))];
      trail := trail + [Moment(containers, healthy)];
      return true;
    }

    method Remove(id: ContainerId) returns (ok: bool)
      requires Valid()
      modifies this`containers, this`faults, this`trail
      ensures Valid()
      ensures ok ==>
        && id in old(containers) && faults == old(faults) && containers == old(containers) - {id}
        && trail == old(trail) + [Moment(containers, healthy)]
      ensures !ok ==>
        && containers == old(containers) && trail == old(trail)
        && faults == old(faults) + if id in containers then 1 else 0
    {
      var fails: bool := *;
      if id !in containers {
        return false;
      }
      if fails {
        faults := faults + 1;
        return false;
      }
      containers := containers - {id};
      trail := trail + [Moment(containers, healthy)];
      return true;
    }

    method Rename(id: ContainerId, name: string) returns (ok: bool)
      requires Valid()
      modifies this`containers, this`faults, this`trail
      ensures Valid()
      ensures ok ==>
        && id in old(containers) && NameFree(old(containers) - {id}, name) && faults == old(faults)
        && containers == old(containers)[id := old(containers)[id].(name := name)]
        && trail == old(trail) + [Moment(containers, healthy)]
      ensures !ok ==>
        && containers == old(containers) && trail == old(trail)
        && faults == old(faults) + if id in containers && NameFree(containers - {id}, name) then 1 else 0
    {
      var fails: bool := *;
      if id !in containers {
        return false;
      }
      if other :| other in containers && other != id && containers[other].name == name {
        assert other in containers - {id};
        return false;
      }
      if fails {
        faults := faults + 1;
        return false;
      }
      containers := containers[id := containers[id].(name := name)];
      trail := trail + [Moment(containers, healthy)];
      return true;
    }

    /** Creates a container under a free name. Docker may report other settings
        than it was given; that too is a fault of the host. An image that is not
        there is one as well. */
    method Create(name: string, spec: Spec) returns (id: Option<ContainerId>)
      requires Valid()
      modifies this`containers, this`nextId, this`faults, this`trail
      ensures Valid()
      ensures id.None? ==>
        && containers == old(containers) && trail == old(trail) && nextId == old(nextId)
        && faults == old(faults) + if NameFree(containers, name) then 1 else 0
      ensures id.Some? ==>
                && id.value == old(nextId) && NameFree(old(containers), name)
                && nextId == old(nextId) + 1
                && id.value in containers && containers == old(containers)[id.value := containers[id.value]]
                && CreatedFrom(name, spec, images, containers[id.value])
                && faults == old(faults) + (if Faithful(spec, containers[id.value].spec) then 0 else 1)
                && trail == old(trail) + [Moment(containers, healthy)]
    {
      var fails: bool := *;
      var settings: Json := *;
      if other :| other in containers && containers[other].name == name {
        return None;
      }
      if fails || Resolve(images, spec.image).None? || (HasPrefix(spec.image, "sha256:") && !RawImageId(spec.image)) {
        faults := faults + 1;
        return None;
      }
      var reported := spec.(settings := settings);
      if !Faithful(spec, reported) {
        faults := faults + 1;
      }
      var made := nextId;
      containers := containers[made := Container(name, reported, Resolve(images, spec.image).value, Created, 0)];
      nextId := nextId + 1;
      trail := trail + [Moment(containers, healthy)];
      return Some(made);
    }

    method Start(id: ContainerId) returns (ok: bool)
      requires Valid()
      modifies this`containers, this`faults, this`trail, this`starts
      ensures Valid()
      ensures ok ==>
        && id in old(containers) && faults == old(faults)
        && containers == old(containers)[id := old(containers)[id].(status := Running)]
        && trail == old(trail) + [Moment(containers, healthy)] && starts == old(starts) + [id]
      ensures !ok ==>
        && containers == old(containers) && trail == old(trail) && starts == old(starts)
        && faults == old(faults) + if id in containers then 1 else 0
    {
      var fails: bool := *;
      if id !in containers {
        return false;
      }
      if fails {
        faults := faults + 1;
        return false;
      }
      containers := containers[id := containers[id].(status := Running)];
      trail := trail + [Moment(containers, healthy)];
      starts := starts + [id];
      return true;
    }

    /** The outcome of the health wait; a container that does not run cannot pass it. */
    method WaitHealthy(id: ContainerId) returns (ok: bool)
      requires Valid()
      modifies this`faults, this`healthy
      ensures Valid()
      ensures ok ==> id in containers && containers[id].status == Running
      ensures ok ==> faults == old(faults) && healthy == old(healthy) + {id}
      ensures !ok ==>
        && healthy == old(healthy)
        && faults == old(faults) + if id in containers && containers[id].status == Running then 1 else 0
    {
      var fails: bool := *;
      if id !in containers || containers[id].status != Running {
        return false;
      }
      if fails {
        faults := faults + 1;
        return false;
      }
      healthy := healthy + {id};
      return true;
    }
  }

  function StoppedStatus(s: Status): Status {
    if IsRunning(s) then Exited else s
  }

  function Stopped(c: Container): Container {
    c.(status := StoppedStatus(c.status))
  }

  /** A fresh container made from a spec, before anyone checked it. */
  predicate CreatedFrom(name: string, spec: Spec, images: map<string, ImageId>, c: Container) {
    && c.name == name && c.status == Created && c.restartCount == 0
    && c.spec.image == spec.image && c.spec.stack == spec.stack
    && Resolve(images, spec.image) == Some(c.imageId)
  }
}
