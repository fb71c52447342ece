/** What updates, rollbacks, reverts and discovery promise over whole runs. */
module UpdateRuns {
  import opened ContainerStore
  import opened CrashWatch
  import opened DockerHost
  import opened ImageReferences
  import opened JsonSubset
  import opened SqlLike
  import opened Updating

  // Rollback parity.

  /** Consecutive successful rollbacks: the container `ids[i]` of `worlds[i]` becomes `ids[i + 1]`. */
  ghost predicate RollbackChain(worlds: seq<World>, ids: seq<ContainerId>, reasons: seq<string>, flags: seq<bool>) {
    && |worlds| == |ids| == |reasons| + 1 && |flags| == |reasons|
    && forall i | 0 <= i < |reasons| ::
          RollbackCommitted(worlds[i], worlds[i + 1], ids[i], ids[i + 1], reasons[i], flags[i])
  }

  /** The image that runs, and the one a rollback would bring back. */
  function ImagePair(w: World, id: ContainerId): (string, string)
    requires id in w.containers && id in w.rows
  {
    (w.containers[id].imageId, w.rows[id].previousImage)
  }

  function SwappedIf(odd: bool, p: (string, string)): (string, string) {
    if odd then (p.1, p.0) else p
  }

  /** After n successful rollbacks the pair depends only on the parity of n;
      the recorded tag, the settings and the run state never change. */
  lemma {:induction false} RollbackParity(worlds: seq<World>, ids: seq<ContainerId>, reasons: seq<string>,
                                          flags: seq<bool>)
    requires RollbackChain(worlds, ids, reasons, flags)
    requires ids[0] in worlds[0].containers && ids[0] in worlds[0].rows
    requires RawImageId(worlds[0].rows[ids[0]].previousImage)
    ensures var n := |reasons|;
            && ids[n] in worlds[n].containers && ids[n] in worlds[n].rows
            && ImagePair(worlds[n], ids[n]) == SwappedIf(n % 2 == 1, ImagePair(worlds[0], ids[0]))
            && RawImageId(worlds[n].rows[ids[n]].previousImage)
            && worlds[n].rows[ids[n]].currentImage == worlds[0].rows[ids[0]].currentImage
            && Subset(worlds[0].containers[ids[0]].spec.settings, worlds[n].containers[ids[n]].spec.settings)
            && IsRunning(worlds[n].containers[ids[n]].status) == IsRunning(worlds[0].containers[ids[0]].status)
    decreases |reasons|
  {
    var n := |reasons|;
    if n == 0 {
      SubsetReflexive(worlds[0].containers[ids[0]].spec.settings);
    } else {
      RollbackParity(worlds[..n], ids[..n], reasons[..n - 1], flags[..n - 1]);
      assert RollbackCommitted(worlds[n - 1], worlds[n], ids[n - 1], ids[n], reasons[n - 1], flags[n - 1]);
      SubsetTransitive(worlds[0].containers[ids[0]].spec.settings,
                       worlds[n - 1].containers[ids[n - 1]].spec.settings,
                       worlds[n].containers[ids[n]].spec.settings);
    }
  }

  /** A rollback right after an update runs the exact image that ran before it,
      under the tag the update recorded, and can itself be undone. */
  lemma RollbackUndoesUpdate(w0: World, w1: World, w2: World, id0: ContainerId, id1: ContainerId, id2: ContainerId,
                             target: string, looked: bool, armed: Watch, closed: bool, reason: string, flagged: bool)
    requires UpdateCommitted(w0, w1, id0, id1, target, looked, armed, closed)
    requires RollbackCommitted(w1, w2, id1, id2, reason, flagged)
    ensures w2.containers[id2].imageId == w0.containers[id0].imageId
    ensures id2 in w2.rows && w2.rows[id2].previousImage == w1.containers[id1].imageId
    ensures w2.rows[id2].currentImage == w1.rows[id1].currentImage
    ensures w2.containers[id2].name == w0.containers[id0].name
    ensures Subset(w0.containers[id0].spec.settings, w2.containers[id2].spec.settings)
    ensures IsRunning(w2.containers[id2].status) == IsRunning(w0.containers[id0].status)
  {
    SubsetTransitive(w0.containers[id0].spec.settings, w1.containers[id1].spec.settings,
                     w2.containers[id2].spec.settings);
  }

  // Tag stickiness.

  /** A mutable reference by both digest tests. */
  predicate IsTag(image: string) {
    image != "" && !SqlDigest(image) && !IsDigestReference(image)
  }

  /** One step in the life of a tracked row. */
  datatype RowStep =
    | OtherWork
    | Discovered(listed: string, excluded: bool)
    | Updated(target: string, armed: Watch, closed: bool)
    | RolledBack(reason: string, flagged: bool)
    | RevertedBack
    | Repaired(image: string)

  /** IDs are not reused, and the reference a container was made from never changes. */
  ghost predicate SameContainer(w: World, w': World, id: ContainerId) {
    id in w'.containers ==> id in w.containers && w'.containers[id].spec.image == w.containers[id].spec.image
  }

  /** The row of `id` in `w` is succeeded by the row of `id'` in `w'`. */
  ghost predicate RowSucceeds(step: RowStep, w: World, w': World, id: ContainerId, id': ContainerId) {
    && id in w.rows && id' in w'.rows
    && match step
       case OtherWork =>
         && id' == id && SameContainer(w, w', id)
         && w'.rows[id].currentImage == w.rows[id].currentImage && w'.rows[id].previousImage == w.rows[id].previousImage
       case Discovered(listed, excluded) =>
         && id' == id && SameContainer(w, w', id) && id in w.containers && DockerReference(listed)
         && w'.rows[id] == SeenRow(w.rows, id, w.containers[id], listed, excluded)
       case Updated(target, armed, closed) =>
         DockerReference(target) && UpdateCommitted(w, w', id, id', target, true, armed, closed)
       case RolledBack(reason, flagged) => RollbackCommitted(w, w', id, id', reason, flagged)
       case RevertedBack => RevertedTo(w, w', id, id', true)
       case Repaired(image) => id' == id && SameContainer(w, w', id) && w'.rows == RepairedRows(w.rows, id, image)
  }

  ghost predicate DockerImages(w: World) {
    forall id | id in w.containers :: DockerReference(w.containers[id].spec.image)
  }

  lemma DockerReferenceNonEmpty(image: string)
    requires DockerReference(image)
    ensures image != ""
  {
  }

  /** Neither the Go nor the SQL rule lets a digest displace a tag. */
  lemma TagSurvives(operationImage: string, storedImage: string)
    requires DockerReference(operationImage) && IsTag(storedImage)
    ensures IsTag(StableImageReference(operationImage, storedImage)) && IsTag(SeenImage(storedImage, operationImage))
  {
    DigestTestsAgree(operationImage);
    DockerReferenceNonEmpty(operationImage);
  }

  lemma TagSurvivesStep(step: RowStep, w: World, w': World, id: ContainerId, id': ContainerId)
    requires RowSucceeds(step, w, w', id, id') && DockerImages(w) && IsTag(w.rows[id].currentImage)
    ensures IsTag(w'.rows[id'].currentImage)
  {
    match step
    case OtherWork =>
    case Discovered(listed, _) => TagSurvives(listed, w.rows[id].currentImage);
    case Updated(target, _, _) => TagSurvives(target, w.rows[id].currentImage);
    case RolledBack(_, _) =>
    case RevertedBack => TagSurvives(w.containers[id].spec.image, w.rows[id].currentImage);
    case Repaired(_) =>
  }

  ghost predicate RowHistory(steps: seq<RowStep>, worlds: seq<World>, ids: seq<ContainerId>) {
    && |worlds| == |ids| == |steps| + 1
    && (forall i | 0 <= i < |worlds| :: DockerImages(worlds[i]) && ids[i] in worlds[i].rows)
    && forall i | 0 <= i < |steps| :: RowSucceeds(steps[i], worlds[i], worlds[i + 1], ids[i], ids[i + 1])
  }

  /** Once a row holds a tag, every row that succeeds it holds a tag. */
  lemma {:induction false} TagStickiness(steps: seq<RowStep>, worlds: seq<World>, ids: seq<ContainerId>)
    requires RowHistory(steps, worlds, ids) && IsTag(worlds[0].rows[ids[0]].currentImage)
    ensures IsTag(worlds[|steps|].rows[ids[|steps|]].currentImage)
    decreases |steps|
  {
    var n := |steps|;
    if n > 0 {
      TagStickiness(steps[..n - 1], worlds[..n], ids[..n]);
      TagSurvivesStep(steps[n - 1], worlds[n - 1], worlds[n], ids[n - 1], ids[n]);
    }
  }

  /** The lookup is what keeps it: an update whose row lookup failed records its target,
      so a tag is succeeded by a tag exactly when the lookup worked or the target is one. */
  lemma UpdateKeepsTagIffLookedUp(w: World, w': World, id: ContainerId, newId: ContainerId, target: string,
                                  looked: bool, armed: Watch, closed: bool)
    requires DockerReference(target) && UpdateCommitted(w, w', id, newId, target, looked, armed, closed)
    requires id in w.rows && IsTag(w.rows[id].currentImage)
    ensures newId in w'.rows
    ensures IsTag(w'.rows[newId].currentImage) <==> looked || !IsDigestReference(target)
  {
    DigestTestsAgree(target);
    TagSurvives(target, w.rows[id].currentImage);
  }

  /** The same for a revert, which records the container's own reference. */
  lemma RevertKeepsTagIffLookedUp(w: World, w': World, id: ContainerId, newId: ContainerId, looked: bool)
    requires id in w.containers && DockerReference(w.containers[id].spec.image) && RevertedTo(w, w', id, newId, looked)
    requires id in w.rows && IsTag(w.rows[id].currentImage)
    ensures newId in w'.rows
    ensures IsTag(w'.rows[newId].currentImage) <==> looked || !IsDigestReference(w.containers[id].spec.image)
  {
    DigestTestsAgree(w.containers[id].spec.image);
    TagSurvives(w.containers[id].spec.image, w.rows[id].currentImage);
  }

  // Rows in step with their containers.

  /** The row records its container's reference, unless that is a digest, and a rollback
      would go to an image ID. */
  ghost predicate RowInStep(w: World, id: ContainerId) {
    && id in w.rows
    && (id in w.containers ==> InStep(w.rows[id], w.containers[id]))
    && (w.rows[id].previousImage == "" || RawImageId(w.rows[id].previousImage))
  }

  /** A discovery saw the container listed under the reference it was made from. */
  ghost predicate ListsOwnImage(step: RowStep, w: World, id: ContainerId) {
    step.Discovered? ==> id in w.containers && step.listed == w.containers[id].spec.image
  }

  lemma InStepKept(step: RowStep, w: World, w': World, id: ContainerId, id': ContainerId)
    requires RowSucceeds(step, w, w', id, id') && DockerImages(w) && RowInStep(w, id) && ListsOwnImage(step, w, id)
    ensures RowInStep(w', id')
  {
    match step
    case RolledBack(_, _) => RawIsDigest(w.rows[id].previousImage);
    case Repaired(_) =>
      if id in w.containers {
        DigestTestsAgree(w.containers[id].spec.image);
      }
    case _ =>
  }

  /** A row that started in step stays so as long as the listing shows what the
      containers were made from. */
  lemma {:induction false} InStepHolds(steps: seq<RowStep>, worlds: seq<World>, ids: seq<ContainerId>)
    requires RowHistory(steps, worlds, ids) && RowInStep(worlds[0], ids[0])
    requires forall i | 0 <= i < |steps| :: ListsOwnImage(steps[i], worlds[i], ids[i])
    ensures RowInStep(worlds[|steps|], ids[|steps|])
    decreases |steps|
  {
    var n := |steps|;
    if n > 0 {
      InStepHolds(steps[..n - 1], worlds[..n], ids[..n]);
      InStepKept(steps[n - 1], worlds[n - 1], worlds[n], ids[n - 1], ids[n]);
    }
  }

  /** So after any such history, an update or rollback that fails with at most one fault
      gives back the container and its row with PreviousImage and the tag unchanged. */
  lemma FailureKeepsTag(steps: seq<RowStep>, worlds: seq<World>, ids: seq<ContainerId>, w': World, faults: int,
                        out: Outcome)
    returns (live: ContainerId)
    requires RowHistory(steps, worlds, ids) && RowInStep(worlds[0], ids[0])
    requires forall i | 0 <= i < |steps| :: ListsOwnImage(steps[i], worlds[i], ids[i])
    requires var w, id := worlds[|steps|], ids[|steps|];
             UniqueNames(w.containers) && id in w.containers && faults <= 1 && NotCommitted(w, w', id, faults, out)
    ensures var w, id := worlds[|steps|], ids[|steps|];
            && RestoredAs(w, w', id, live) && live in w'.rows
            && w'.rows[live].previousImage == w.rows[id].previousImage
            && (HoldsTag(w.rows[id]) ==> w'.rows[live].currentImage == w.rows[id].currentImage)
  {
    InStepHolds(steps, worlds, ids);
    live := SingleFaultAtomicity(worlds[|steps|], w', ids[|steps|], faults, out);
  }

  /** Where the listing shows another tag than the one the container was made from, one
      fault is enough to lose the recorded tag: discovery stores what is listed, the
      revert what the container was made from. This is so for any two tags. */
  lemma RevertLosesListedTag(own: string, listed: string, c: Container) returns (w0: World, w1: World, w2: World)
    requires DockerReference(listed) && IsTag(own) && IsTag(listed) && own != listed
    requires c.spec.image == own && c.status == Created && c.restartCount == 0
    ensures RowInStep(w0, 1) && RowSucceeds(Discovered(listed, false), w0, w1, 1, 1)
    ensures UniqueNames(w1.containers) && NotCommitted(w1, w2, 1, 1, Reverted(2))
    ensures w1.rows[1].currentImage == listed && 2 in w2.rows && w2.rows[2].currentImage == own
  {
    w0 := World(map[1 := c], map[1 := NewRow(c, own, "")], map[]);
    w1 := World(map[1 := c], map[1 := NewRow(c, listed, "")], map[]);
    w2 := World(map[2 := c], map[2 := NewRow(c, own, "")], map[]);
    RevertOfDriftedRow(own, listed, c, w1, w2);
    assert SeenImage(own, listed) == listed;
  }

  lemma RevertOfDriftedRow(own: string, listed: string, c: Container, w1: World, w2: World)
    requires c.spec.image == own && c.status == Created && c.restartCount == 0 && !IsDigestReference(own)
    requires w1 == World(map[1 := c], map[1 := NewRow(c, listed, "")], map[])
    requires w2 == World(map[2 := c], map[2 := NewRow(c, own, "")], map[])
    ensures NotCommitted(w1, w2, 1, 1, Reverted(2))
  {
    FaithfulToItself(c.spec);
    assert c.spec.(image := c.spec.image) == c.spec;
    assert RawImageId(c.spec.image) ==> IsDigestReference(c.spec.image) by {
      if RawImageId(c.spec.image) {
        RawIsDigest(c.spec.image);
      }
    }
    assert Swapped(w1.containers, w2.containers, 1, 2);
    assert RevertedRows(w1.rows, 1, 2, c, c, true) == w2.rows;
  }

  /** There are such tags: any text without an at sign, a colon or a blank. */
  lemma PlainIsTag(s: string)
    requires s != "" && '@' !in s && ':' !in s && Graphic(s)
    ensures DockerReference(s) && IsTag(s)
  {
    if |s| > 6 {
      assert Fold(s[0 + 6]) != Fold("sha256:"[6]);
    }
    DigestTestsAgree(s);
  }
}
