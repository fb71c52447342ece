/** Every interleaving of concurrent updates, rollbacks and self-update requests.
    One step is one call of one caller; a caller may stop at a failure at any point. */
module OperationProtocol {
  import opened Operations
  import opened Text

  type ContainerId = nat
  type CallerId = nat

  /** Where a caller stands: the container ID it was asked to replace, the key it asks
      the guard for, and whether that key is the name its row lookup found. An update
      whose lookup failed takes the ID itself as its key. From its inspection on it knows
      the name the container has. */
  datatype Caller =
    | Looked(kind: Kind, id: ContainerId, key: string, looked: bool)
    | Held(kind: Kind, id: ContainerId, key: string, looked: bool)
    | Inspected(kind: Kind, id: ContainerId, key: string, looked: bool, name: string)
    | Removed(kind: Kind, id: ContainerId, key: string, looked: bool, name: string)
    | Recreated(kind: Kind, id: ContainerId, key: string, looked: bool, name: string, newId: ContainerId)
    | Finishing(kind: Kind, id: ContainerId, key: string, looked: bool)
    | ReleasedLock(kind: Kind)
    | Over
    | GateClosed
    | Accepted

  datatype World = World(
    guard: GuardState,
    live: map<ContainerId, string>,      // containers on the host, by ID, with their names
    rows: map<ContainerId, string>,      // tracked rows
    nextId: ContainerId,
    callers: map<CallerId, Caller>,
    nextCaller: CallerId,
    names: map<ContainerId, string>,     // history: the last name of every ID there ever was
    blind: bool,                         // history: some update went ahead without its row
    renamed: bool,                       // history: some container was renamed outside
    commits: seq<ContainerId>)           // history: IDs whose replacement was committed, oldest first

  datatype Step =
    | Request(kind: Kind, id: ContainerId)   // row looked up
    | RequestBlind(id: ContainerId)          // an update whose row lookup failed
    | Begin(c: CallerId)
    | Inspect(c: CallerId)
    | Remove(c: CallerId)
    | Create(c: CallerId)
    | RemoveNew(c: CallerId)                 // the revert removes the failed replacement
    | Commit(c: CallerId)
    | GiveUp(c: CallerId)                    // a failure from which the caller returns
    | Release(c: CallerId)
    | Discharge(c: CallerId)
    | RequestSelfUpdate
    | SelfUpdateFails(c: CallerId)
    | SelfUpdateAccepted(c: CallerId)
    | Discover                               // an atomic discovery pass
    | Deploy(name: string)                   // a container started outside
    | Rename(id: ContainerId, name: string)  // a container renamed outside

  predicate Enabled(w: World, s: Step) {
    match s
    case Request(_, id) => id in w.rows
    case RequestBlind(id) => id in w.names
    case Begin(c) => c in w.callers && w.callers[c].Looked?
    case Inspect(c) => c in w.callers && w.callers[c].Held? && w.callers[c].id in w.live
    case Remove(c) => c in w.callers && w.callers[c].Inspected? && w.callers[c].id in w.live
    case Create(c) => c in w.callers && w.callers[c].Removed?
    case RemoveNew(c) => c in w.callers && w.callers[c].Recreated?
    case Commit(c) => c in w.callers && w.callers[c].Recreated?
    case GiveUp(c) => c in w.callers && Holds(w.callers[c])
    case Release(c) => c in w.callers && w.callers[c].Finishing?
    case Discharge(c) => c in w.callers && w.callers[c].ReleasedLock?
    case SelfUpdateFails(c) => c in w.callers && w.callers[c].GateClosed?
    case SelfUpdateAccepted(c) => c in w.callers && w.callers[c].GateClosed?
    case RequestSelfUpdate => true
    case Discover => true
    case Deploy(_) => true
    case Rename(id, _) => id in w.live
  }

  /** The caller is between a successful begin and the release of its name. */
  predicate Holds(c: Caller) {
    c.Held? || c.Inspected? || c.Removed? || c.Recreated? || c.Finishing?
  }

  predicate HoldsGate(c: Caller) {
    c.GateClosed? || c.Accepted?
  }

  /** The caller is still counted by the active-operations gauge. */
  predicate Charged(c: Caller, k: Kind) {
    (Holds(c) || c.ReleasedLock?) && c.kind == k
  }

  /** The name a container has, or had. */
  function NameOf(w: World, id: ContainerId): string {
    if id in w.names then w.names[id] else ""
  }

  function Move(w: World, c: CallerId, to: Caller): World {
    w.(callers := w.callers[c := to])
  }

  function Apply(w: World, s: Step): World
    requires Enabled(w, s)
  {
    match s
    case Request(kind, id) =>
      w.(callers := w.callers[w.nextCaller := Looked(kind, id, w.rows[id], true)], nextCaller := w.nextCaller + 1)
    case RequestBlind(id) =>
      w.(callers := w.callers[w.nextCaller := Looked(UpdateKind, id, Decimal(id), false)],
         nextCaller := w.nextCaller + 1, blind := true)
    case Begin(c) =>
      var me := w.callers[c];
      Move(w, c, if BeginAnswer(w.guard, me.key) == Started then Held(me.kind, me.id, me.key, me.looked) else Over)
        .(guard := Begun(w.guard, me.key, me.kind))
    case Inspect(c) =>
      var me := w.callers[c];
      Move(w, c, Inspected(me.kind, me.id, me.key, me.looked, w.live[me.id]))
    case Remove(c) =>
      var me := w.callers[c];
      Move(w, c, Removed(me.kind, me.id, me.key, me.looked, me.name)).(live := w.live - {me.id})
    case Create(c) =>
      var me := w.callers[c];
      Move(w, c, Recreated(me.kind, me.id, me.key, me.looked, me.name, w.nextId))
        .(live := w.live[w.nextId := me.name], names := w.names[w.nextId := me.name], nextId := w.nextId + 1)
    case RemoveNew(c) =>
      var me := w.callers[c];
      Move(w, c, Removed(me.kind, me.id, me.key, me.looked, me.name)).(live := w.live - {me.newId})
    case Commit(c) =>
      var me := w.callers[c];
      Move(w, c, Finishing(me.kind, me.id, me.key, me.looked))
        .(rows := (w.rows - {me.id})[me.newId := me.name], commits := w.commits + [me.id])
    case GiveUp(c) =>
      var me := w.callers[c];
      Move(w, c, Finishing(me.kind, me.id, me.key, me.looked))
    case Release(c) =>
      var me := w.callers[c];
      Move(w, c, ReleasedLock(me.kind)).(guard := Released(w.guard, me.key))
    case Discharge(c) =>
      Move(w, c, Over).(guard := Discharged(w.guard, w.callers[c].kind))
    case RequestSelfUpdate =>
      w.(callers := w.callers[w.nextCaller := if GateCanClose(w.guard) then GateClosed else Over],
         nextCaller := w.nextCaller + 1,
         guard := if GateCanClose(w.guard) then w.guard.(maintenance := true) else w.guard)
    case SelfUpdateFails(c) =>
      Move(w, c, Over).(guard := w.guard.(maintenance := false))
    case SelfUpdateAccepted(c) =>
      Move(w, c, Accepted)
    case Discover =>
      w.(rows := w.live)
    case Deploy(name) =>
      w.(live := w.live[w.nextId := name], names := w.names[w.nextId := name], nextId := w.nextId + 1)
    case Rename(id, name) =>
      w.(live := w.live[id := name], names := w.names[id := name], renamed := true)
  }

  predicate Initial(w: World) {
    && w.guard == GuardState(map[], false, map[])
    && w.callers == map[] && w.commits == [] && !w.blind && !w.renamed
    && TablesAgree(w)
  }

  predicate Runs(w: World, steps: seq<Step>)
    decreases |steps|, 0
  {
    steps != [] ==>
      && Runs(w, steps[..|steps| - 1])
      && Enabled(After(w, steps[..|steps| - 1]), steps[|steps| - 1])
  }

  function After(w: World, steps: seq<Step>): World
    requires Runs(w, steps)
    decreases |steps|, 1
  {
    if steps == [] then w
    else Apply(After(w, steps[..|steps| - 1]), steps[|steps| - 1])
  }

  // The invariant, in four parts.

  /** IDs are never reused, and unless containers are renamed outside their names are fixed. */
  predicate TablesAgree(w: World) {
    && (forall id | id in w.names :: id < w.nextId)
    && (forall id | id in w.live :: id in w.names && w.live[id] == w.names[id])
    && (forall id | id in w.rows :: id in w.names && (!w.renamed ==> w.rows[id] == w.names[id]))
  }

  /** The caller knows the name of its container. */
  predicate KnowsName(c: Caller) {
    c.Inspected? || c.Removed? || c.Recreated?
  }

  /** The key is the container's name if its row was found, else its ID; a replacement has
      the name of what it replaces. */
  predicate KeyFits(w: World, c: Caller) {
    && (c.Looked? || Holds(c) ==> c.id in w.names && (c.looked || (w.blind && c.key == Decimal(c.id))))
    && (c.Recreated? ==> c.newId in w.names && c.newId != c.id)
    && (!w.renamed ==>
          && ((c.Looked? || Holds(c)) && c.looked ==> c.key == w.names[c.id])
          && (KnowsName(c) ==> c.name == w.names[c.id])
          && (c.Recreated? ==> w.names[c.newId] == c.name))
  }

  ghost predicate NamesFixed(w: World) {
    && TablesAgree(w)
    && forall c | c in w.callers :: c < w.nextCaller && KeyFits(w, w.callers[c])
  }

  /** The guard's table is exactly the set of callers that hold a key. */
  ghost predicate LocksHeld(w: World) {
    && (forall c | c in w.callers && Holds(w.callers[c]) ::
          w.callers[c].key in w.guard.active && w.guard.active[w.callers[c].key] == w.callers[c].kind)
    && (forall c, d | c in w.callers && d in w.callers && c != d && Holds(w.callers[c]) && Holds(w.callers[d]) ::
          w.callers[c].key != w.callers[d].key)
    && (forall n | n in w.guard.active :: exists c :: c in w.callers && Holds(w.callers[c]) && w.callers[c].key == n)
  }

  ghost predicate GateDiscipline(w: World) {
    && (w.guard.maintenance ==> w.guard.active == map[])
    && (w.guard.maintenance <==> exists c :: c in w.callers && HoldsGate(w.callers[c]))
    && (forall c, d | c in w.callers && d in w.callers && HoldsGate(w.callers[c]) && HoldsGate(w.callers[d]) :: c == d)
  }

  /** The caller has removed the container and not yet given up or committed. */
  predicate Replaces(c: Caller) {
    c.Removed? || c.Recreated?
  }

  /** A container is removed once, so one caller at most replaces it. */
  ghost predicate Ownership(w: World) {
    && (forall c | c in w.callers && Replaces(w.callers[c]) ::
          w.callers[c].id !in w.live && w.callers[c].id !in w.commits)
    && (forall c, d | c in w.callers && d in w.callers && c != d && Replaces(w.callers[c]) && Replaces(w.callers[d]) ::
          w.callers[c].id != w.callers[d].id)
  }

  /** What a caller works on is still there: nobody else removed it. */
  predicate Undisturbed(live: map<ContainerId, string>, c: Caller) {
    (c.Inspected? ==> c.id in live) && (c.Recreated? ==> c.newId in live)
  }

  /** Callers that found their rows, under names that last, do not disturb one another. */
  ghost predicate Peace(w: World) {
    !w.blind && !w.renamed ==> forall c | c in w.callers :: Undisturbed(w.live, w.callers[c])
  }

  ghost predicate CommitsFinal(w: World) {
    && (forall i | 0 <= i < |w.commits| :: w.commits[i] !in w.live && w.commits[i] in w.names)
    && (forall i, j | 0 <= i < j < |w.commits| :: w.commits[i] != w.commits[j])
  }

  ghost function ChargedCallers(w: World, k: Kind): set<CallerId> {
    set c | c in w.callers && Charged(w.callers[c], k)
  }

  ghost predicate GaugeExact(w: World) {
    forall k :: Gauge(w.guard, k) == |ChargedCallers(w, k)|
  }

  ghost predicate Invariant(w: World) {
    NamesFixed(w) && LocksHeld(w) && GateDiscipline(w) && Ownership(w) && Peace(w) && CommitsFinal(w) && GaugeExact(w)
  }

  lemma CallersKeepTables(w: World, s: Step)
    requires NamesFixed(w) && Enabled(w, s) && (s.Create? || s.Commit?)
    ensures TablesAgree(Apply(w, s))
  {
    assert KeyFits(w, w.callers[s.c]);
  }

  lemma OthersKeepTables(w: World, s: Step)
    requires TablesAgree(w) && Enabled(w, s) && !s.Create? && !s.Commit?
    ensures TablesAgree(Apply(w, s))
  {
  }

  /** Names are only ever added or changed by a rename, which is remembered, as is a blind
      request. */
  lemma NamesOnlyGrow(w: World, s: Step)
    requires TablesAgree(w) && Enabled(w, s)
    ensures forall id | id in w.names ::
              id in Apply(w, s).names && (Apply(w, s).renamed || Apply(w, s).names[id] == w.names[id])
    ensures (w.blind ==> Apply(w, s).blind) && (w.renamed ==> Apply(w, s).renamed)
    ensures Apply(w, s).nextCaller >= w.nextCaller
  {
  }

  lemma NewcomerKeyFits(w: World, s: Step)
    requires NamesFixed(w) && Enabled(w, s) && Mover(w, s) == w.nextCaller && w.nextCaller in Apply(w, s).callers
    ensures w.nextCaller < Apply(w, s).nextCaller && KeyFits(Apply(w, s), Apply(w, s).callers[w.nextCaller])
  {
  }

  lemma MoverKeyFits(w: World, s: Step)
    requires NamesFixed(w) && Enabled(w, s) && Mover(w, s) in w.callers
    ensures Mover(w, s) < Apply(w, s).nextCaller && KeyFits(Apply(w, s), Apply(w, s).callers[Mover(w, s)])
  {
    assert KeyFits(w, w.callers[Mover(w, s)]);
  }

  lemma NamesFixedKept(w: World, s: Step)
    requires NamesFixed(w) && Enabled(w, s)
    ensures NamesFixed(Apply(w, s))
  {
    if s.Create? || s.Commit? {
      CallersKeepTables(w, s);
    } else {
      OthersKeepTables(w, s);
    }
    OnlyTheMoverMoves(w, s);
    NamesOnlyGrow(w, s);
    var w' := Apply(w, s);
    forall c | c in w'.callers ensures c < w'.nextCaller && KeyFits(w', w'.callers[c]) {
      if c == Mover(w, s) {
        if c in w.callers {
          MoverKeyFits(w, s);
        } else {
          NewcomerKeyFits(w, s);
        }
      } else {
        assert KeyFits(w, w.callers[c]);
      }
    }
  }

  predicate SameHold(a: Caller, b: Caller) {
    Holds(a) == Holds(b) && (Holds(a) ==> a.kind == b.kind && a.key == b.key)
  }

  /** The caller a step moves, if any. */
  function Mover(w: World, s: Step): CallerId {
    match s
    case Request(_, _) => w.nextCaller
    case RequestBlind(_) => w.nextCaller
    case RequestSelfUpdate => w.nextCaller
    case Discover => w.nextCaller
    case Deploy(_) => w.nextCaller
    case Rename(_, _) => w.nextCaller
    case _ => s.c
  }

  lemma OnlyTheMoverMoves(w: World, s: Step)
    requires Enabled(w, s)
    ensures forall d | d in w.callers && d != Mover(w, s) ::
              d in Apply(w, s).callers && Apply(w, s).callers[d] == w.callers[d]
    ensures forall d | d in Apply(w, s).callers :: d in w.callers || d == Mover(w, s)
  {
  }

  lemma LocksHeldFramed(w: World, w': World, m: CallerId)
    requires LocksHeld(w) && w'.guard.active == w.guard.active
    requires forall d | d in w.callers && d != m :: d in w'.callers && w'.callers[d] == w.callers[d]
    requires forall d | d in w'.callers :: d in w.callers || d == m
    requires if m in w.callers then m in w'.callers && SameHold(w.callers[m], w'.callers[m])
             else m in w'.callers ==> !Holds(w'.callers[m])
    ensures LocksHeld(w')
  {
  }

  lemma LocksHeldBegin(w: World, c: CallerId)
    requires LocksHeld(w) && Enabled(w, Begin(c)) && BeginAnswer(w.guard, w.callers[c].key) == Started
    ensures LocksHeld(Apply(w, Begin(c)))
  {
    var w' := Apply(w, Begin(c));
    assert Holds(w'.callers[c]);
    forall n | n in w'.guard.active
      ensures exists d :: d in w'.callers && Holds(w'.callers[d]) && w'.callers[d].key == n
    {
      if n != w.callers[c].key {
        var d :| d in w.callers && Holds(w.callers[d]) && w.callers[d].key == n;
        assert d in w'.callers && Holds(w'.callers[d]) && w'.callers[d].key == n;
      }
    }
  }

  lemma LocksHeldRelease(w: World, c: CallerId)
    requires LocksHeld(w) && Enabled(w, Release(c))
    ensures LocksHeld(Apply(w, Release(c)))
  {
    var w' := Apply(w, Release(c));
    assert !Holds(w'.callers[c]);
    forall n | n in w'.guard.active
      ensures exists d :: d in w'.callers && Holds(w'.callers[d]) && w'.callers[d].key == n
    {
      var d :| d in w.callers && Holds(w.callers[d]) && w.callers[d].key == n;
      assert d in w'.callers && Holds(w'.callers[d]) && w'.callers[d].key == n;
    }
  }

  lemma MoverKeepsHold(w: World, s: Step)
    requires Enabled(w, s) && !s.Release?
    requires !(s.Begin? && BeginAnswer(w.guard, w.callers[s.c].key) == Started)
    ensures var w', m := Apply(w, s), Mover(w, s);
            && w'.guard.active == w.guard.active
            && if m in w.callers && m != w.nextCaller
               then m in w'.callers && SameHold(w.callers[m], w'.callers[m])
               else m in w'.callers && m !in w.callers ==> !Holds(w'.callers[m])
  {
  }

  lemma LocksHeldKept(w: World, s: Step)
    requires NamesFixed(w) && LocksHeld(w) && Enabled(w, s)
    ensures LocksHeld(Apply(w, s))
  {
    if s.Begin? && BeginAnswer(w.guard, w.callers[s.c].key) == Started {
      LocksHeldBegin(w, s.c);
    } else if s.Release? {
      LocksHeldRelease(w, s.c);
    } else {
      OnlyTheMoverMoves(w, s);
      MoverKeepsHold(w, s);
      LocksHeldFramed(w, Apply(w, s), Mover(w, s));
    }
  }

  lemma GateFramed(w: World, w': World, m: CallerId)
    requires GateDiscipline(w)
    requires w'.guard.maintenance == w.guard.maintenance && (w'.guard.maintenance ==> w'.guard.active == map[])
    requires forall d | d in w.callers && d != m :: d in w'.callers && w'.callers[d] == w.callers[d]
    requires forall d | d in w'.callers :: d in w.callers || d == m
    requires (m in w'.callers && HoldsGate(w'.callers[m])) <==> (m in w.callers && HoldsGate(w.callers[m]))
    ensures GateDiscipline(w')
  {
  }

  lemma MoverKeepsGate(w: World, s: Step)
    requires NamesFixed(w) && Enabled(w, s) && (w.guard.maintenance ==> w.guard.active == map[])
    requires !(s.RequestSelfUpdate? && GateCanClose(w.guard)) && !s.SelfUpdateFails?
    ensures var w', m := Apply(w, s), Mover(w, s);
            && w'.guard.maintenance == w.guard.maintenance && (w'.guard.maintenance ==> w'.guard.active == map[])
            && ((m in w'.callers && HoldsGate(w'.callers[m])) <==> (m in w.callers && HoldsGate(w.callers[m])))
  {
  }

  lemma GateDisciplineKept(w: World, s: Step)
    requires NamesFixed(w) && GateDiscipline(w) && Enabled(w, s)
    ensures GateDiscipline(Apply(w, s))
  {
    var w' := Apply(w, s);
    if s.RequestSelfUpdate? && GateCanClose(w.guard) {
      assert HoldsGate(w'.callers[w.nextCaller]);
    } else if s.SelfUpdateFails? {
      assert HoldsGate(w.callers[s.c]);
    } else {
      OnlyTheMoverMoves(w, s);
      MoverKeepsGate(w, s);
      GateFramed(w, w', Mover(w, s));
    }
  }

  /** What was removed and not committed stays so, unless its own remover commits. */
  lemma RemovedStaysRemoved(w: World, s: Step, id: ContainerId)
    requires TablesAgree(w) && Enabled(w, s) && id in w.names && id !in w.live && id !in w.commits
    requires s.Commit? ==> w.callers[s.c].id != id
    ensures id !in Apply(w, s).live && id !in Apply(w, s).commits
  {
  }

  lemma MoverReplacesAlone(w: World, s: Step)
    requires NamesFixed(w) && Ownership(w) && CommitsFinal(w) && Enabled(w, s)
    requires Mover(w, s) in Apply(w, s).callers && Replaces(Apply(w, s).callers[Mover(w, s)])
    ensures var w', m := Apply(w, s), Mover(w, s);
            && m in w.callers && w'.callers[m].id == w.callers[m].id
            && w'.callers[m].id !in w'.live && w'.callers[m].id !in w'.commits
            && forall d | d in w.callers && d != m && Replaces(w.callers[d]) :: w.callers[d].id != w.callers[m].id
  {
    assert KeyFits(w, w.callers[s.c]);
  }

  lemma OwnershipKept(w: World, s: Step)
    requires NamesFixed(w) && Ownership(w) && CommitsFinal(w) && Enabled(w, s)
    ensures Ownership(Apply(w, s))
  {
    OnlyTheMoverMoves(w, s);
    var w', m := Apply(w, s), Mover(w, s);
    if m in w'.callers && Replaces(w'.callers[m]) {
      MoverReplacesAlone(w, s);
    }
    forall c | c in w'.callers && c != m && Replaces(w'.callers[c])
      ensures w'.callers[c].id !in w'.live && w'.callers[c].id !in w'.commits
    {
      assert KeyFits(w, w.callers[c]);
      RemovedStaysRemoved(w, s, w.callers[c].id);
    }
  }

  /** Two callers that hold keys and found their rows work on containers of different names. */
  lemma HoldersApart(w: World, c: CallerId, d: CallerId)
    requires NamesFixed(w) && LocksHeld(w)
    requires c in w.callers && d in w.callers && c != d && Holds(w.callers[c]) && Holds(w.callers[d])
    ensures w.callers[c].looked && w.callers[d].looked && !w.renamed ==>
              NameOf(w, w.callers[c].id) != NameOf(w, w.callers[d].id)
  {
    assert KeyFits(w, w.callers[c]) && KeyFits(w, w.callers[d]);
  }

  lemma PeaceKept(w: World, s: Step)
    requires NamesFixed(w) && LocksHeld(w) && Peace(w) && Enabled(w, s)
    ensures Peace(Apply(w, s))
  {
    OnlyTheMoverMoves(w, s);
    var w', m := Apply(w, s), Mover(w, s);
    if !w'.blind && !w'.renamed {
      forall d | d in w'.callers ensures Undisturbed(w'.live, w'.callers[d]) {
        if d in w.callers {
          assert KeyFits(w, w.callers[d]) && Undisturbed(w.live, w.callers[d]);
          if d != m && m in w.callers && Holds(w.callers[m]) && Holds(w.callers[d]) {
            assert KeyFits(w, w.callers[m]);
            HoldersApart(w, m, d);
          }
        }
      }
    }
  }

  lemma OthersKeepCommits(w: World, s: Step)
    requires TablesAgree(w) && CommitsFinal(w) && Enabled(w, s) && !s.Commit?
    ensures CommitsFinal(Apply(w, s))
  {
  }

  lemma CommitsFinalKept(w: World, s: Step)
    requires NamesFixed(w) && Ownership(w) && CommitsFinal(w) && Enabled(w, s)
    ensures CommitsFinal(Apply(w, s))
  {
    if s.Commit? {
      assert KeyFits(w, w.callers[s.c]);
    } else {
      OthersKeepCommits(w, s);
    }
  }

  /** One caller changing its state changes the charged set by at most itself. */
  lemma ChargedMoves(before: set<CallerId>, after: set<CallerId>, c: CallerId)
    requires before - {c} == after - {c}
    ensures |after| - (if c in after then 1 else 0) == |before| - (if c in before then 1 else 0)
  {
    assert |before| == |before - {c}| + (if c in before then 1 else 0);
    assert |after| == |after - {c}| + (if c in after then 1 else 0);
  }

  predicate ChargedAt(w: World, c: CallerId, k: Kind) {
    c in w.callers && Charged(w.callers[c], k)
  }

  /** The gauge moves with the mover's charge. */
  lemma GaugeMoves(w: World, s: Step, k: Kind)
    requires NamesFixed(w) && Enabled(w, s)
    ensures var w', m := Apply(w, s), Mover(w, s);
            Gauge(w'.guard, k) - (if ChargedAt(w', m, k) then 1 else 0)
            == Gauge(w.guard, k) - (if ChargedAt(w, m, k) then 1 else 0)
  {
  }

  lemma GaugeExactKept(w: World, s: Step)
    requires NamesFixed(w) && GaugeExact(w) && Enabled(w, s)
    ensures GaugeExact(Apply(w, s))
  {
    var w', m := Apply(w, s), Mover(w, s);
    OnlyTheMoverMoves(w, s);
    forall k ensures Gauge(w'.guard, k) == |ChargedCallers(w', k)| {
      assert Gauge(w.guard, k) == |ChargedCallers(w, k)|;
      GaugeMoves(w, s, k);
      ChargedMoves(ChargedCallers(w, k), ChargedCallers(w', k), m);
    }
  }

  lemma {:induction false} InvariantHolds(w: World, steps: seq<Step>)
    requires Initial(w) && Runs(w, steps)
    ensures Invariant(After(w, steps))
    decreases |steps|
  {
    if steps == [] {
      assert forall k :: ChargedCallers(w, k) == {};
    } else {
      var before, s := steps[..|steps| - 1], steps[|steps| - 1];
      InvariantHolds(w, before);
      var at := After(w, before);
      NamesFixedKept(at, s);
      LocksHeldKept(at, s);
      GateDisciplineKept(at, s);
      OwnershipKept(at, s);
      PeaceKept(at, s);
      CommitsFinalKept(at, s);
      GaugeExactKept(at, s);
    }
  }

  /** In every reachable state: at most one operation per key; none while the
      gate is closed; and the gate is closed exactly while a self-update that was
      neither refused nor failed holds it. */
  lemma MutualExclusion(w: World, steps: seq<Step>)
    requires Initial(w) && Runs(w, steps)
    ensures var at := After(w, steps);
            && (forall c, d | c in at.callers && d in at.callers && Holds(at.callers[c]) && Holds(at.callers[d])
                  && at.callers[c].key == at.callers[d].key :: c == d)
            && (at.guard.maintenance ==> forall c | c in at.callers :: !Holds(at.callers[c]))
            && (at.guard.maintenance <==> exists c :: c in at.callers && HoldsGate(at.callers[c]))
  {
    InvariantHolds(w, steps);
  }

  /** Per container, exclusion holds among the operations whose row lookup worked, as long
      as nothing is renamed outside: of two in flight on containers of one name at least
      one is blind, and of two in flight on one ID exactly one is. */
  lemma ExclusionPerContainer(w: World, steps: seq<Step>, c: CallerId, d: CallerId)
    requires Initial(w) && Runs(w, steps)
    requires var at := After(w, steps);
             c in at.callers && d in at.callers && c != d && Holds(at.callers[c]) && Holds(at.callers[d])
    ensures var at := After(w, steps);
            var same := NameOf(at, at.callers[c].id) == NameOf(at, at.callers[d].id);
            && (same ==> !at.callers[c].looked || !at.callers[d].looked || at.renamed)
            && (at.callers[c].id == at.callers[d].id ==> at.callers[c].looked != at.callers[d].looked || at.renamed)
            && (at.callers[c].id == at.callers[d].id ==> at.callers[c].looked || at.callers[d].looked)
            && (same ==> at.blind || at.renamed)
  {
    InvariantHolds(w, steps);
    var at := After(w, steps);
    assert KeyFits(at, at.callers[c]) && KeyFits(at, at.callers[d]);
    HoldersApart(at, c, d);
  }

  lemma RunGrows(w: World, steps: seq<Step>, s: Step)
    requires Runs(w, steps) && Enabled(After(w, steps), s)
    ensures Runs(w, steps + [s]) && After(w, steps + [s]) == Apply(After(w, steps), s)
  {
    assert (steps + [s])[..|steps|] == steps;
  }

  /** A blind update does get past the guard of a container that is being worked on. */
  lemma BlindUpdateSharesContainer(w: World, id: ContainerId) returns (steps: seq<Step>)
    requires Initial(w) && w.nextCaller == 0 && id in w.rows && w.rows[id] != Decimal(id)
    ensures Runs(w, steps)
    ensures var at := After(w, steps).callers;
            0 in at && 1 in at && Holds(at[0]) && Holds(at[1]) && at[0].id == at[1].id == id
  {
    steps := [];
    RunGrows(w, steps, Request(UpdateKind, id));
    steps := steps + [Request(UpdateKind, id)];
    RunGrows(w, steps, Begin(0));
    steps := steps + [Begin(0)];
    RunGrows(w, steps, RequestBlind(id));
    steps := steps + [RequestBlind(id)];
    RunGrows(w, steps, Begin(1));
    steps := steps + [Begin(1)];
  }

  /** And so does one that looks the container up after it was renamed outside and seen
      under its new name by a discovery. */
  lemma RenamedContainerIsShared(w: World, id: ContainerId, name: string) returns (steps: seq<Step>)
    requires Initial(w) && w.nextCaller == 0 && id in w.rows && id in w.live && w.rows[id] != name
    ensures Runs(w, steps)
    ensures var at := After(w, steps).callers;
            && 0 in at && 1 in at && Holds(at[0]) && Holds(at[1])
            && at[0].id == at[1].id == id && at[0].looked && at[1].looked
  {
    steps := [];
    RunGrows(w, steps, Request(UpdateKind, id));
    steps := steps + [Request(UpdateKind, id)];
    RunGrows(w, steps, Begin(0));
    steps := steps + [Begin(0)];
    RunGrows(w, steps, Rename(id, name));
    steps := steps + [Rename(id, name)];
    RunGrows(w, steps, Discover);
    steps := steps + [Discover];
    RunGrows(w, steps, Request(UpdateKind, id));
    steps := steps + [Request(UpdateKind, id)];
    RunGrows(w, steps, Begin(1));
    steps := steps + [Begin(1)];
  }

  /** Of all operations aimed at one container ID at most one commits a replacement for
      it, blind ones included and whatever is renamed, and a committed ID never comes
      back. While neither interferes, a replacement waiting for its commit is still there. */
  lemma OneReplacementPerContainer(w: World, steps: seq<Step>)
    requires Initial(w) && Runs(w, steps)
    ensures var at := After(w, steps);
            && (forall i, j | 0 <= i < j < |at.commits| :: at.commits[i] != at.commits[j])
            && (forall i | 0 <= i < |at.commits| :: at.commits[i] !in at.live)
            && (forall c | c in at.callers && at.callers[c].Recreated? ::
                  at.callers[c].id !in at.commits && (!at.blind && !at.renamed ==> at.callers[c].newId in at.live))
  {
    InvariantHolds(w, steps);
    var at := After(w, steps);
    assert !at.blind && !at.renamed ==> forall c | c in at.callers :: Undisturbed(at.live, at.callers[c]);
  }

  /** The gauge of a kind is the number of names held for it, plus the callers
      that gave their name back and have not finished. */
  lemma GaugeCountsHeldNames(w: World, steps: seq<Step>, k: Kind)
    requires Initial(w) && Runs(w, steps)
    requires forall c | c in After(w, steps).callers :: !After(w, steps).callers[c].ReleasedLock?
    ensures var at := After(w, steps);
            Gauge(at.guard, k) == |set n | n in at.guard.active && at.guard.active[n] == k|
  {
    InvariantHolds(w, steps);
    var at := After(w, steps);
    NamesBijectCallers(at, ChargedCallers(at, k), set n | n in at.guard.active && at.guard.active[n] == k);
  }

  lemma NamesBijectCallers(at: World, cs: set<CallerId>, names: set<string>)
    requires LocksHeld(at)
    requires forall c | c in cs :: c in at.callers && Holds(at.callers[c])
    requires names == set c | c in cs :: at.callers[c].key
    ensures |cs| == |names|
  {
    var nameOf := map c | c in cs :: at.callers[c].key;
    InjectiveSize(nameOf, cs, names);
  }

  lemma {:induction false} InjectiveSize(f: map<CallerId, string>, cs: set<CallerId>, names: set<string>)
    requires cs <= f.Keys && forall c, d | c in cs && d in cs && c != d :: f[c] != f[d]
    requires names == set c | c in cs :: f[c]
    ensures |cs| == |names|
    decreases |cs|
  {
    if c :| c in cs {
      InjectiveSize(f, cs - {c}, names - {f[c]});
    }
  }
}
