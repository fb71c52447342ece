/** The guard that lets one destructive operation run per container name, and
    the global maintenance gate a self-update closes. */
module Operations {
  datatype Kind = UpdateKind | RollbackKind

  datatype GuardState = GuardState(active: map<string, Kind>, maintenance: bool, gauge: map<Kind, int>)

  datatype BeginResult = Started | Busy(current: Kind) | InMaintenance

  function Gauge(g: GuardState, k: Kind): int {
    if k in g.gauge then g.gauge[k] else 0
  }

  function AddGauge(g: GuardState, k: Kind, delta: int): GuardState {
    g.(gauge := g.gauge[k := Gauge(g, k) + delta])
  }

  /** What begin answers: the gate is asked before the name. */
  function BeginAnswer(g: GuardState, name: string): BeginResult {
    if g.maintenance then InMaintenance
    else if name in g.active then Busy(g.active[name])
    else Started
  }

  function Begun(g: GuardState, name: string, kind: Kind): GuardState {
    if BeginAnswer(g, name) == Started
    then AddGauge(g.(active := g.active[name := kind]), kind, 1)
    else g
  }

  /** The first half of end, under the lock. */
  function Released(g: GuardState, name: string): GuardState {
    g.(active := g.active - {name})
  }

  /** The second half of end, after the lock was given up. */
  function Discharged(g: GuardState, kind: Kind): GuardState {
    AddGauge(g, kind, -1)
  }

  predicate GateCanClose(g: GuardState) {
    !g.maintenance && g.active == map[]
  }

  /** A finished operation leaves no trace in the guard. */
  lemma EndUndoesBegin(g: GuardState, name: string, kind: Kind)
    requires BeginAnswer(g, name) == Started
    ensures var after := Discharged(Released(Begun(g, name, kind), name), kind);
            && after.active == g.active && after.maintenance == g.maintenance
            && forall k :: Gauge(after, k) == Gauge(g, k)
  {
  }

  class OperationGuard {
    var active: map<string, Kind>
    var maintenance: bool
    var gauge: map<Kind, int>

    constructor ()
      ensures State() == GuardState(map[], false, map[])
    {
      active, maintenance, gauge := map[], false, map[];
    }

    ghost function State(): GuardState
      reads this
    {
      GuardState(active, maintenance, gauge)
    }

    method Begin(name: string, kind: Kind) returns (answer: BeginResult)
      modifies this
      ensures answer == BeginAnswer(old(State()), name)
      ensures State() == Begun(old(State()), name, kind)
    {
      if maintenance {
        return InMaintenance;
      }
      if name in active {
        return Busy(active[name]);
      }
      active := active[name := kind];
      gauge := gauge[kind := (if kind in gauge then gauge[kind] else 0) + 1];
      return Started;
    }

    method End(name: string, kind: Kind)
      modifies this
      ensures State() == Discharged(Released(old(State()), name), kind)
    {
      active := active - {name};
      gauge := gauge[kind := (if kind in gauge then gauge[kind] else 0) - 1];
    }

    /** Closes the gate, or lists every operation that keeps it open. */
    method BeginMaintenance() returns (busy: seq<(string, Kind)>, ok: bool)
      modifies this
      ensures ok == GateCanClose(old(State()))
      ensures State() == old(State()).(maintenance := ok || old(maintenance))
      ensures ok ==> busy == []
      ensures !ok ==> |busy| == |active| && forall n, k :: (n, k) in busy <==> n in active && active[n] == k
    {
      busy := [];
      if maintenance || active != map[] {
        var rest := active;
        while rest != map[]
          invariant State() == old(State())
          invariant rest.Keys <= active.Keys && forall n | n in rest :: rest[n] == active[n]
          invariant |busy| + |rest| == |active|
          invariant forall n, k :: (n, k) in busy <==> n in active && n !in rest && active[n] == k
          decreases |rest|
        {
          assert rest.Keys != {};
          var name :| name in rest;
          busy := busy + [(name, rest[name])];
          ShrinkByOne(rest, name);
          rest := rest - {name};
        }
        return busy, false;
      }
      maintenance := true;
      return [], true;
    }

    method EndMaintenance()
      modifies this
      ensures State() == old(State()).(maintenance := false)
    {
      maintenance := false;
    }
  }

  lemma ShrinkByOne(m: map<string, Kind>, name: string)
    requires name in m
    ensures |m - {name}| == |m| - 1
  {
  }
}
