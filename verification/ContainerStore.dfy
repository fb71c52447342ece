/** The container rows and rollback watches of the store. A transaction is one
    atomic step; like a Docker call, it may fail without effect. */
module ContainerStore {
  import opened Options
  import opened CrashWatch
  import opened DockerHost
  import opened SqlLike

  datatype Row = Row(name: string, stack: string, state: Status,
                     currentImage: string, previousImage: string,
                     updateAvailable: bool, excluded: bool)

  type Rows = map<ContainerId, Row>
  type Watches = map<string, Watch>

  /** replaceContainerTx: the old row goes; the new one starts with no pending
      update, and keeps its exclusion only if its ID was already known. */
  function ReplacedRows(rows: Rows, oldId: ContainerId, id: ContainerId, row: Row): Rows {
    var kept := if oldId != id then rows - {oldId} else rows;
    kept[id := row.(updateAvailable := false, excluded := id in kept && kept[id].excluded)]
  }

  function ClosedWatches(watches: Watches, name: string, reason: string): Watches {
    if name in watches then watches[name := watches[name].(status := Closed(reason))] else watches
  }

  /** The replaced row is gone, its successor starts without a pending update and is excluded
      only if it already was, and no other row changes. */
  lemma ReplacedRowsMeaning(rows: Rows, oldId: ContainerId, id: ContainerId, row: Row, other: ContainerId)
    ensures var r := ReplacedRows(rows, oldId, id, row);
            && id in r && (oldId != id ==> oldId !in r)
            && r[id] == row.(updateAvailable := false, excluded := r[id].excluded)
            && (r[id].excluded <==> id in rows && rows[id].excluded)
            && (other != id && other != oldId ==>
                  (other in r <==> other in rows) && (other in r ==> r[other] == rows[other]))
  {
  }

  /** A closed watch counts nothing and triggers nothing any more; no other watch changes. */
  lemma ClosedWatchIsSilent(watches: Watches, name: string, reason: string, other: string, e: CrashEvent)
    requires name in watches
    ensures var w := ClosedWatches(watches, name, reason);
            && name in w && w[name].status == Closed(reason) && !Accepts(w[name], e)
            && (other != name ==> (other in w <==> other in watches) && (other in w ==> w[other] == watches[other]))
  {
  }

  /** The CASE of UpsertSeen: a digest seen on the host never displaces a stored tag. */
  function SeenImage(stored: string, live: string): string {
    if SqlDigest(live) && stored != "" && !SqlDigest(stored) then stored else live
  }

  /** The row a discovery writes. `listed` is the image the container listing shows,
      which need not be the reference the container was made from. */
  function SeenRow(rows: Rows, id: ContainerId, c: Container, listed: string, excluded: bool): Row {
    if id in rows
    then rows[id].(name := c.name, stack := c.spec.stack, state := c.status,
                   currentImage := SeenImage(rows[id].currentImage, listed), excluded := excluded)
    else Row(c.name, c.spec.stack, c.status, listed, "", false, excluded)
  }

  ghost predicate NameTracked(rows: Rows, name: string) {
    exists id :: id in rows && rows[id].name == name
  }

  class Store {
    var rows: Rows
    var watches: Watches
    var crashThreshold: nat
    var crashWindow: nat
    ghost var faults: nat

    constructor (crashThreshold: nat, crashWindow: nat)
      ensures rows == map[] && watches == map[] && faults == 0
      ensures this.crashThreshold == crashThreshold && this.crashWindow == crashWindow
    {
      rows, watches, faults := map[], map[], 0;
      this.crashThreshold, this.crashWindow := crashThreshold, crashWindow;
    }

    method GetContainer(id: ContainerId) returns (row: Option<Row>)
      modifies this`faults
      ensures row.Some? ==> id in rows && row.value == rows[id] && faults == old(faults)
      ensures row.None? ==> faults == old(faults) + if id in rows then 1 else 0
    {
      var fails: bool := *;
      if id !in rows {
        return None;
      }
      if fails {
        faults := faults + 1;
        return None;
      }
      return Some(rows[id]);
    }

    /** Any row of that name: the query has no ORDER BY. */
    method GetContainerByName(name: string) returns (id: Option<ContainerId>)
      modifies this`faults
      ensures id.Some? ==> id.value in rows && rows[id.value].name == name && faults == old(faults)
      ensures id.None? ==> faults == old(faults) + if NameTracked(rows, name) then 1 else 0
    {
      var fails: bool := *;
      if i :| i in rows && rows[i].name == name {
        assert i in rows && rows[i].name == name;
        if fails {
          faults := faults + 1;
          return None;
        }
        return Some(i);
      }
      return None;
    }

    method GetCrashLoopSettings() returns (settings: Option<(nat, nat)>)
      modifies this`faults
      ensures settings.Some? ==> settings.value == (crashThreshold, crashWindow) && faults == old(faults)
      ensures settings.None? ==> faults == old(faults) + 1
    {
      var fails: bool := *;
      if fails {
        faults := faults + 1;
        return None;
      }
      return Some((crashThreshold, crashWindow));
    }

    method ReplaceContainer(oldId: ContainerId, id: ContainerId, row: Row) returns (ok: bool)
      modifies this`rows, this`faults
      ensures ok ==> rows == ReplacedRows(old(rows), oldId, id, row) && faults == old(faults)
      ensures !ok ==> rows == old(rows) && faults == old(faults) + 1
    {
      var fails: bool := *;
      if fails {
        faults := faults + 1;
        return false;
      }
      if oldId != id {
        rows := rows - {oldId};
      }
      rows := rows[id := row.(updateAvailable := false, excluded := id in rows && rows[id].excluded)];
      return true;
    }

    method ReplaceContainerAndArmRollback(oldId: ContainerId, id: ContainerId, row: Row,
                                          watch: Watch) returns (ok: bool)
      modifies this`rows, this`watches, this`faults
      ensures ok ==>
        && rows == ReplacedRows(old(rows), oldId, id, row)
        && watches == old(watches)[row.name := watch]
        && faults == old(faults)
      ensures !ok ==> rows == old(rows) && watches == old(watches) && faults == old(faults) + 1
    {
      ok := ReplaceContainer(oldId, id, row);
      if ok {
        watches := watches[row.name := watch];
      }
    }

    method ReplaceContainerAndCompleteRollback(oldId: ContainerId, id: ContainerId, row: Row,
                                               reason: string) returns (ok: bool)
      modifies this`rows, this`watches, this`faults
      ensures ok ==>
        && rows == ReplacedRows(old(rows), oldId, id, row)
        && watches == ClosedWatches(old(watches), row.name, reason)
        && faults == old(faults)
      ensures !ok ==> rows == old(rows) && watches == old(watches) && faults == old(faults) + 1
    {
      ok := ReplaceContainer(oldId, id, row);
      if ok && row.name in watches {
        watches := watches[row.name := watches[row.name].(status := Closed(reason))];
      }
    }

    /** Unconditional by name, whatever the status. */
    method CompleteRollbackWatch(name: string, reason: string) returns (ok: bool)
      modifies this`watches, this`faults
      ensures ok ==> watches == ClosedWatches(old(watches), name, reason) && faults == old(faults)
      ensures !ok ==> watches == old(watches) && faults == old(faults) + 1
    {
      var fails: bool := *;
      if fails {
        faults := faults + 1;
        return false;
      }
      if name in watches {
        watches := watches[name := watches[name].(status := Closed(reason))];
      }
      return true;
    }

    method SetUpdateAvailable(id: ContainerId, available: bool) returns (ok: bool)
      modifies this`rows, this`faults
      ensures ok ==> faults == old(faults)
      ensures ok && id in old(rows) ==> rows == old(rows)[id := old(rows)[id].(updateAvailable := available)]
      ensures ok && id !in old(rows) ==> rows == old(rows)
      ensures !ok ==> rows == old(rows) && faults == old(faults) + 1
    {
      var fails: bool := *;
      if fails {
        faults := faults + 1;
        return false;
      }
      if id in rows {
        rows := rows[id := rows[id].(updateAvailable := available)];
      }
      return true;
    }

    /** Reflects a live state; a container without a row is left to the next discovery. */
    method SetContainerState(id: ContainerId, state: Status) returns (ok: bool)
      modifies this`rows, this`faults
      ensures ok ==> faults == old(faults)
      ensures ok ==> rows == if id in old(rows) then old(rows)[id := old(rows)[id].(state := state)] else old(rows)
      ensures !ok ==> rows == old(rows) && faults == old(faults) + 1
    {
      var fails: bool := *;
      if fails {
        faults := faults + 1;
        return false;
      }
      if id in rows {
        rows := rows[id := rows[id].(state := state)];
      }
      return true;
    }

    method UpsertSeen(id: ContainerId, c: Container, listed: string, excluded: bool) returns (ok: bool)
      modifies this`rows, this`faults
      ensures ok ==> rows == old(rows)[id := SeenRow(old(rows), id, c, listed, excluded)] && faults == old(faults)
      ensures !ok ==> rows == old(rows) && faults == old(faults) + 1
    {
      var fails: bool := *;
      if fails {
        faults := faults + 1;
        return false;
      }
      if id in rows {
        var image := listed;
        if SqlDigest(image) && rows[id].currentImage != "" && !SqlDigest(rows[id].currentImage) {
          image := rows[id].currentImage;
        }
        rows := rows[id := rows[id].(name := c.name, stack := c.spec.stack, state := c.status,
                                     currentImage := image, excluded := excluded)];
      } else {
        rows := rows[id := Row(c.name, c.spec.stack, c.status, listed, "", false, excluded)];
      }
      return true;
    }

    /** Drops every row whose container is gone; an empty list drops nothing. */
    method PruneContainers(liveIds: set<ContainerId>) returns (ok: bool)
      modifies this`rows, this`faults
      ensures ok ==> rows == (if liveIds == {} then old(rows) else old(rows) - (old(rows).Keys - liveIds))
      ensures ok ==> faults == old(faults)
      ensures !ok ==> rows == old(rows) && faults == old(faults) + 1
    {
      if liveIds == {} {
        return true;
      }
      var fails: bool := *;
      if fails {
        faults := faults + 1;
        return false;
      }
      rows := rows - (rows.Keys - liveIds);
      return true;
    }

    /** RecordCrash: nothing when there is no watch, or when the transaction failed. */
    method RecordCrash(name: string, e: CrashEvent) returns (counted: bool, triggered: bool)
      modifies this`watches, this`faults
      ensures faults == old(faults) && name in old(watches) ==>
        && watches == old(watches)[name := Recorded(old(watches)[name], e)]
        && counted == Accepts(old(watches)[name], e) && triggered == Triggers(old(watches)[name], e)
      ensures faults != old(faults) || name !in old(watches) ==> watches == old(watches) && !counted && !triggered
      ensures faults >= old(faults)
    {
      counted, triggered := false, false;
      if name !in watches {
        return;
      }
      var fails: bool := *;
      if fails {
        faults := faults + 1;
        return;
      }
      var w := watches[name];
      if w.status != Active || w.containerId != e.containerId || !(e.at < w.expiresAt) || e.nano <= w.lastEventNano {
        return;
      }
      w := w.(crashCount := w.crashCount + 1, observedRestarts := w.observedRestarts + 1,
              lastEventNano := e.nano, lastCrashAt := Some(e.at), triggeredAt := None);
      counted := true;
      if w.crashCount >= w.threshold {
        w := w.(status := Triggered, triggeredAt := Some(e.at));
        triggered := true;
      }
      watches := watches[name := w];
    }

    method SetRollbackWatchRestartCount(name: string, count: int) returns (ok: bool)
      modifies this`watches, this`faults
      ensures ok ==> faults == old(faults)
      ensures ok && name in old(watches) ==>
                watches == old(watches)[name := old(watches)[name].(observedRestarts := count)]
      ensures ok && name !in old(watches) ==> watches == old(watches)
      ensures !ok ==> watches == old(watches) && faults == old(faults) + 1
    {
      var fails: bool := *;
      if fails {
        faults := faults + 1;
        return false;
      }
      if name in watches {
        watches := watches[name := watches[name].(observedRestarts := count)];
      }
      return true;
    }

    method ExpireRollbackWatches(now: int) returns (ok: bool)
      modifies this`watches, this`faults
      ensures ok ==> watches == ExpiredWatches(old(watches), now) && faults == old(faults)
      ensures !ok ==> watches == old(watches) && faults == old(faults) + 1
    {
      var fails: bool := *;
      if fails {
        faults := faults + 1;
        return false;
      }
      watches := map n | n in watches ::
        if watches[n].status == Active && watches[n].expiresAt <= now then watches[n].(status := Expired)
        else watches[n];
      return true;
    }

    /** The names of the active watches, each once. */
    method ListActiveRollbackWatches() returns (names: Option<seq<string>>)
      modifies this`faults
      ensures names.None? ==> faults == old(faults) + 1
      ensures names.Some? ==>
        && faults == old(faults)
        && (forall n :: n in names.value <==> n in watches && watches[n].status == Active)
        && (forall i, j | 0 <= i < j < |names.value| :: names.value[i] != names.value[j])
    {
      var fails: bool := *;
      if fails {
        faults := faults + 1;
        return None;
      }
      var left := set n | n in watches && watches[n].status == Active;
      var out: seq<string> := [];
      while left != {}
        invariant forall n :: n in watches && watches[n].status == Active <==> n in left || n in out
        invariant forall i | 0 <= i < |out| :: out[i] !in left
        invariant forall i, j | 0 <= i < j < |out| :: out[i] != out[j]
        decreases |left|
      {
        var n :| n in left;
        left := left - {n};
        out := out + [n];
      }
      return Some(out);
    }

    /** Replaces a digest-shaped image only; a tag is left alone. */
    method RepairCurrentImage(id: ContainerId, image: string) returns (ok: bool)
      modifies this`rows, this`faults
      ensures ok ==> rows == RepairedRows(old(rows), id, image) && faults == old(faults)
      ensures !ok ==> rows == old(rows) && faults == old(faults) + 1
    {
      var fails: bool := *;
      if fails {
        faults := faults + 1;
        return false;
      }
      if id in rows && SqlDigest(rows[id].currentImage) {
        rows := rows[id := rows[id].(currentImage := image)];
      }
      return true;
    }
  }

  /** ExpireRollbackWatches. */
  function ExpiredWatches(watches: Watches, now: int): Watches {
    map n | n in watches :: ExpiredAt(watches[n], now)
  }

  function RepairedRows(rows: Rows, id: ContainerId, image: string): Rows {
    if id in rows && SqlDigest(rows[id].currentImage) then rows[id := rows[id].(currentImage := image)] else rows
  }
}
