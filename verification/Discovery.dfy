/** One discovery pass: every container on the host is upserted, then rows of
    vanished containers are pruned. */
module Discovery {
  import opened ContainerStore
  import opened CrashWatch
  import opened DockerHost
  import opened ImageReferences
  import opened UpdateRuns
  import opened Updating

  /** The image the container listing shows for each container. */
  type Listing = ContainerId -> string

  /** The doupro.enable label and the two exclusion lists of the settings. */
  datatype Exclusions = Exclusions(labelled: set<ContainerId>, names: set<string>, stacks: set<string>)

  predicate Excludes(ex: Exclusions, id: ContainerId, c: Container) {
    id in ex.labelled || c.name in ex.names || c.spec.stack in ex.stacks
  }

  /** The rows a pass without store failures leaves. */
  function DiscoveredRows(rows: Rows, containers: map<ContainerId, Container>, listed: Listing, ex: Exclusions): Rows {
    map id | id in containers :: SeenRow(rows, id, containers[id], listed(id), Excludes(ex, id, containers[id]))
  }

  /** The rows when the containers outside `left` were upserted; a failed write
      leaves its row as it was. */
  ghost predicate SeenSoFar(before: Rows, rows: Rows, containers: map<ContainerId, Container>, listed: Listing,
                            ex: Exclusions,
                            left: set<ContainerId>, faultless: bool) {
    && before.Keys <= rows.Keys <= before.Keys + containers.Keys
    && (forall id | id in rows :: SeenOrKept(before, rows, containers, listed, ex, id))
    && (forall id | id in rows && id in left :: id in before && rows[id] == before[id])
    && (faultless ==> forall id | id in containers && id !in left ::
          id in rows && rows[id] == SeenRow(before, id, containers[id], listed(id), Excludes(ex, id, containers[id])))
  }

  predicate SeenOrKept(before: Rows, rows: Rows, containers: map<ContainerId, Container>, listed: Listing,
                       ex: Exclusions, id: ContainerId)
    requires id in rows
  {
    || (&& id in containers
        && rows[id] == SeenRow(before, id, containers[id], listed(id), Excludes(ex, id, containers[id])))
    || (id in before && rows[id] == before[id])
  }

  /** The rows of such a pass are those of the listed containers. Each shows its container
      as it is, is excluded by its label, its name or its stack, and keeps what only
      updates and checks decide. */
  lemma DiscoveredRowsMeaning(rows: Rows, containers: map<ContainerId, Container>, listed: Listing, ex: Exclusions,
                              id: ContainerId)
    ensures var after := DiscoveredRows(rows, containers, listed, ex);
            && (id in after <==> id in containers)
            && (id in after ==>
                  var c, row := containers[id], after[id];
                  && row.name == c.name && row.stack == c.spec.stack && row.state == c.status
                  && (row.excluded <==> id in ex.labelled || c.name in ex.names || c.spec.stack in ex.stacks)
                  && row.previousImage == (if id in rows then rows[id].previousImage else "")
                  && row.updateAvailable == (id in rows && rows[id].updateAvailable))
  {
  }

  method Discover(host: Host, store: Store, listed: Listing, ex: Exclusions)
    modifies store`rows, store`faults
    ensures store.faults >= old(store.faults)
    ensures forall id | id in store.rows :: SeenOrKept(old(store.rows), store.rows, host.containers, listed, ex, id)
    ensures store.faults == old(store.faults) && host.containers != map[] ==>
      store.rows == DiscoveredRows(old(store.rows), host.containers, listed, ex)
  {
    var left := host.containers.Keys;
    while left != {}
      invariant left <= host.containers.Keys
      invariant store.faults >= old(store.faults)
      invariant SeenSoFar(old(store.rows), store.rows, host.containers, listed, ex, left,
                          store.faults == old(store.faults))
      decreases |left|
    {
      var id :| id in left;
      var c := host.containers[id];
      ghost var rows := store.rows;
      var ok := store.UpsertSeen(id, c, listed(id),
                                 id in ex.labelled || c.name in ex.names || c.spec.stack in ex.stacks);
      UpsertStep(old(store.rows), rows, store.rows, host.containers, listed, ex, left, id, ok,
                 store.faults == old(store.faults));
      left := left - {id};
    }
    ghost var rows := store.rows;
    var _ := store.PruneContainers(host.containers.Keys);
    PruneStep(old(store.rows), rows, store.rows, host.containers, listed, ex, store.faults == old(store.faults));
  }

  lemma UpsertStep(before: Rows, rows: Rows, rows': Rows, containers: map<ContainerId, Container>, listed: Listing,
                   ex: Exclusions,
                   left: set<ContainerId>, id: ContainerId, ok: bool, faultless: bool)
    requires id in left && left <= containers.Keys && SeenSoFar(before, rows, containers, listed, ex, left, faultless)
    requires ok ==> rows' == rows[id := SeenRow(rows, id, containers[id], listed(id), Excludes(ex, id, containers[id]))]
    requires !ok ==> rows' == rows
    requires faultless ==> ok
    ensures SeenSoFar(before, rows', containers, listed, ex, left - {id}, faultless)
  {
  }

  lemma PruneStep(before: Rows, rows: Rows, rows': Rows, containers: map<ContainerId, Container>, listed: Listing,
                  ex: Exclusions, faultless: bool)
    requires SeenSoFar(before, rows, containers, listed, ex, {}, faultless)
    requires rows' == rows || rows' == rows - (rows.Keys - containers.Keys)
    requires faultless && containers != map[] ==> rows' == rows - (rows.Keys - containers.Keys)
    ensures forall i | i in rows' :: SeenOrKept(before, rows', containers, listed, ex, i)
    ensures faultless && containers != map[] ==> rows' == DiscoveredRows(before, containers, listed, ex)
  {
  }

  /** Discovery is a step in the life of every row it keeps, so tags survive it. */
  lemma DiscoveryIsARowStep(w: World, w': World, listed: Listing, ex: Exclusions, id: ContainerId)
    requires id in w.rows && id in w'.rows && w'.containers == w.containers
    requires DockerReference(listed(id)) && SeenOrKept(w.rows, w'.rows, w.containers, listed, ex, id)
    ensures RowSucceeds(OtherWork, w, w', id, id)
         || RowSucceeds(Discovered(listed(id), id in w.containers && Excludes(ex, id, w.containers[id])), w, w', id, id)
  {
  }
}
