/** The candidate table: which image each compatibility scope of a container would be
    updated to, and since when. */
module UpdateCandidates {
  import opened Options

  datatype Candidate = Candidate(image: string, version: string, detectedAt: int)
  datatype Choice = Choice(scope: string, image: string, version: string)

  type Key = (string, string)
  type Table = map<Key, Candidate>

  const SCOPES: seq<string> := ["patch", "minor", "major"]

  /** The ON CONFLICT clause: the detection time survives while the image stays. */
  function Upserted(table: Table, id: string, choice: Choice, now: int): Table {
    var key := (id, choice.scope);
    var detectedAt := if key in table && table[key].image == choice.image then table[key].detectedAt else now;
    table[key := Candidate(choice.image, choice.version, detectedAt)]
  }

  function AllUpserted(table: Table, id: string, choices: seq<Choice>, now: int): Table {
    if choices == [] then table
    else Upserted(AllUpserted(table, id, choices[..|choices| - 1], now), id, choices[|choices| - 1], now)
  }

  function Scopes(choices: seq<Choice>): set<string> {
    set i | 0 <= i < |choices| :: choices[i].scope
  }

  function Dropped(table: Table, id: string, wanted: set<string>): Table {
    map key | key in table && !(key.0 == id && key.1 in SCOPES && key.1 !in wanted) :: table[key]
  }

  function Replaced(table: Table, id: string, choices: seq<Choice>, now: int): Table {
    Dropped(AllUpserted(table, id, choices, now), id, Scopes(choices))
  }

  function Cleared(table: Table, id: string): Table {
    map key | key in table && key.0 != id :: table[key]
  }

  class CandidateStore {
    var table: Table

    constructor ()
      ensures table == map[]
    {
      table := map[];
    }

    method ReplaceUpdateCandidates(id: string, choices: seq<Choice>, now: int)
      modifies this
      ensures table == Replaced(old(table), id, choices, now)
    {
      var wanted: set<string> := {};
      for i := 0 to |choices|
        invariant table == AllUpserted(old(table), id, choices[..i], now)
        invariant wanted == Scopes(choices[..i])
      {
        wanted := wanted + {choices[i].scope};
        table := Upserted(table, id, choices[i], now);
        assert choices[..i + 1] == choices[..i] + [choices[i]];
        assert choices[..i + 1][..i] == choices[..i];
      }
      assert choices[..|choices|] == choices;
      DropUnwanted(id, wanted);
    }

    method DropUnwanted(id: string, wanted: set<string>)
      modifies this
      ensures table == Dropped(old(table), id, wanted)
    {
      for i := 0 to |SCOPES|
        invariant table == map key | key in old(table) && !(key.0 == id && key.1 in SCOPES[..i] && key.1 !in wanted) ::
                    old(table)[key]
      {
        assert SCOPES[..i + 1] == SCOPES[..i] + [SCOPES[i]];
        if SCOPES[i] !in wanted {
          table := table - {(id, SCOPES[i])};
        }
      }
      assert SCOPES[..|SCOPES|] == SCOPES;
    }

    method GetUpdateCandidate(id: string, scope: string) returns (found: Option<Candidate>)
      ensures found == if (id, scope) in table then Some(table[(id, scope)]) else None
    {
      found := if (id, scope) in table then Some(table[(id, scope)]) else None;
    }

    method ClearUpdateCandidates(id: string)
      modifies this
      ensures forall key :: key in table <==> key in old(table) && key.0 != id
      ensures forall key | key in table :: table[key] == old(table)[key]
    {
      table := map key | key in table && key.0 != id :: table[key];
    }
  }

  // Histories of the table.

  datatype Event =
    | Refresh(id: string, choices: seq<Choice>, at: int)
    | Clear(id: string)

  /** The check builds its choices from a map keyed by scope. */
  predicate DistinctScopes(choices: seq<Choice>) {
    forall i, j | 0 <= i < j < |choices| :: choices[i].scope != choices[j].scope
  }

  predicate WellFormed(history: seq<Event>) {
    forall i | 0 <= i < |history| && history[i].Refresh? :: DistinctScopes(history[i].choices)
  }

  function Happen(table: Table, e: Event): Table {
    match e
    case Refresh(id, choices, at) => Replaced(table, id, choices, at)
    case Clear(id) => Cleared(table, id)
  }

  function After(history: seq<Event>): Table {
    if history == [] then map[] else Happen(After(history[..|history| - 1]), history[|history| - 1])
  }

  /** The event is a check of the container that chose this image for the scope. */
  predicate Chose(e: Event, id: string, scope: string, image: string) {
    e.Refresh? && e.id == id && exists i | 0 <= i < |e.choices| ::
        e.choices[i].scope == scope && e.choices[i].image == image
  }

  /** `k` starts the unbroken run of checks, reaching to the end of the history, that
      chose the image: nothing said about the container since then differs, and the
      last thing said before it does. */
  predicate StartsStreak(history: seq<Event>, id: string, scope: string, image: string, k: nat) {
    && k < |history| && Chose(history[k], id, scope, image)
    && (forall j | k <= j < |history| && history[j].id == id :: Chose(history[j], id, scope, image))
    && (forall j | 0 <= j < k && history[j].id == id && Chose(history[j], id, scope, image) ::
          exists i | j < i < k :: history[i].id == id && !Chose(history[i], id, scope, image))
  }

  /** What one refresh leaves under each key. */
  lemma {:induction false} UpsertedAt(table: Table, id: string, choices: seq<Choice>, now: int, key: Key)
    requires DistinctScopes(choices)
    ensures var t := AllUpserted(table, id, choices, now);
            if key.0 == id && key.1 in Scopes(choices)
            then exists i | 0 <= i < |choices| ::
                   choices[i].scope == key.1 && key in t && t[key] == Upserted(table, id, choices[i], now)[key]
            else (key in t <==> key in table) && (key in t ==> t[key] == table[key])
  {
    if choices != [] {
      var front, last := choices[..|choices| - 1], choices[|choices| - 1];
      UpsertedAt(table, id, front, now, key);
      if key == (id, last.scope) {
        assert key.1 !in Scopes(front);
        assert choices[|choices| - 1].scope == key.1;
      } else if key.0 == id && key.1 in Scopes(choices) {
        var j :| 0 <= j < |choices| && choices[j].scope == key.1;
        assert front[j].scope == key.1;
        var i :| 0 <= i < |front| && front[i].scope == key.1 && key in AllUpserted(table, id, front, now)
                 && AllUpserted(table, id, front, now)[key] == Upserted(table, id, front[i], now)[key];
        assert choices[i] == front[i];
      }
    }
  }

  predicate ChoseAny(e: Event, id: string, scope: string) {
    e.Refresh? && e.id == id && scope in Scopes(e.choices)
  }

  lemma OneImagePerScope(e: Event, id: string, scope: string, a: string, b: string)
    requires e.Refresh? ==> DistinctScopes(e.choices)
    requires Chose(e, id, scope, a) && Chose(e, id, scope, b)
    ensures a == b
  {
  }

  lemma HappenAt(table: Table, e: Event, id: string, scope: string)
    requires e.Refresh? ==> DistinctScopes(e.choices)
    requires scope in SCOPES
    ensures var t, key := Happen(table, e), (id, scope);
            if e.id != id then (key in t <==> key in table) && (key in t ==> t[key] == table[key])
            else if !ChoseAny(e, id, scope) then key !in t
            else key in t && Chose(e, id, scope, t[key].image)
                 && t[key].detectedAt ==
                    if key in table && table[key].image == t[key].image then table[key].detectedAt else e.at
  {
    if e.Refresh? {
      UpsertedAt(table, e.id, e.choices, e.at, (id, scope));
    }
  }

  /** For an absent key, after everything said about the container comes something, or
      that itself, which did not choose for the scope. */
  lemma {:induction false} AbsentMeansUnchosen(history: seq<Event>, id: string, scope: string, j: nat)
    requires WellFormed(history) && scope in SCOPES && (id, scope) !in After(history)
    requires j < |history| && history[j].id == id
    ensures exists i | j <= i < |history| :: history[i].id == id && !ChoseAny(history[i], id, scope)
  {
    var n := |history| - 1;
    HappenAt(After(history[..n]), history[n], id, scope);
    if history[n].id != id {
      AbsentMeansUnchosen(history[..n], id, scope, j);
      var i :| j <= i < n && history[..n][i].id == id && !ChoseAny(history[..n][i], id, scope);
      assert history[i].id == id;
    }
  }

  /** Every entry's detection time is the time of the first check of the unbroken run
      of checks that chose its image. */
  lemma {:induction false} DetectionStartsStreak(history: seq<Event>, id: string, scope: string) returns (k: nat)
    requires WellFormed(history) && scope in SCOPES && (id, scope) in After(history)
    ensures StartsStreak(history, id, scope, After(history)[(id, scope)].image, k)
    ensures After(history)[(id, scope)].detectedAt == history[k].at
    decreases |history|, 0
  {
    var n := |history| - 1;
    var front, e, key := history[..n], history[n], (id, scope);
    var before, image := After(front), After(history)[key].image;
    HappenAt(before, e, id, scope);
    if key in before && before[key].image == image {
      k := DetectionStartsStreak(front, id, scope);
      StreakGrows(history, id, scope, image, k);
    } else {
      k := n;
      forall j | 0 <= j < n && history[j].id == id && Chose(history[j], id, scope, image)
        ensures exists i | j < i < n :: history[i].id == id && !Chose(history[i], id, scope, image)
      {
        var i := Interruption(front, id, scope, image, j);
        assert front[i] == history[i];
      }
    }
  }

  lemma StreakGrows(history: seq<Event>, id: string, scope: string, image: string, k: nat)
    requires history != [] && StartsStreak(history[..|history| - 1], id, scope, image, k)
    requires history[|history| - 1].id == id ==> Chose(history[|history| - 1], id, scope, image)
    ensures StartsStreak(history, id, scope, image, k)
  {
  }

  /** If the table does not hold the image, the run of checks that chose it was broken. */
  lemma {:induction false} Interruption(front: seq<Event>, id: string, scope: string, image: string,
                                        j: nat) returns (i: nat)
    requires WellFormed(front) && scope in SCOPES
    requires (id, scope) in After(front) ==> After(front)[(id, scope)].image != image
    requires j < |front| && Chose(front[j], id, scope, image)
    ensures j < i < |front| && front[i].id == id && !Chose(front[i], id, scope, image)
    decreases |front|, 1
  {
    var key := (id, scope);
    if key in After(front) {
      i := DetectionStartsStreak(front, id, scope);
      if Chose(front[i], id, scope, image) {
        OneImagePerScope(front[i], id, scope, image, After(front)[key].image);
      }
      if j > i {
        OneImagePerScope(front[j], id, scope, image, After(front)[key].image);
      }
    } else {
      AbsentMeansUnchosen(front, id, scope, j);
      i :| j <= i < |front| && front[i].id == id && !ChoseAny(front[i], id, scope);
    }
  }

  /** Conversely an unbroken run puts its image in the table, with its start as the
      detection time. */
  lemma StreakIsRecorded(history: seq<Event>, id: string, scope: string, image: string, k: nat)
    requires WellFormed(history) && scope in SCOPES && StartsStreak(history, id, scope, image, k)
    ensures (id, scope) in After(history)
    ensures After(history)[(id, scope)].image == image && After(history)[(id, scope)].detectedAt == history[k].at
  {
    var key := (id, scope);
    if key !in After(history) {
      AbsentMeansUnchosen(history, id, scope, k);
    } else {
      var m := DetectionStartsStreak(history, id, scope);
      var last := if k < m then m else k;
      OneImagePerScope(history[last], id, scope, image, After(history)[key].image);
    }
  }

  /** A clear forgets every scope of its container and nothing else, so the next check to
      choose for a scope starts its delay afresh, whatever was known before. */
  lemma ClearRestartsTheDelay(history: seq<Event>, id: string, choices: seq<Choice>, at: int, scope: string)
    requires DistinctScopes(choices) && scope in SCOPES
    ensures (id, scope) !in After(history + [Clear(id)])
    ensures forall key: Key | key.0 != id ::
              && (key in After(history + [Clear(id)]) <==> key in After(history))
              && (key in After(history) ==> After(history + [Clear(id)])[key] == After(history)[key])
    ensures var t := After(history + [Clear(id), Refresh(id, choices, at)]);
            && ((id, scope) in t <==> scope in Scopes(choices))
            && ((id, scope) in t ==> t[(id, scope)].detectedAt == at)
  {
    var cleared, refreshed := history + [Clear(id)], history + [Clear(id), Refresh(id, choices, at)];
    assert cleared[..|cleared| - 1] == history && refreshed[..|refreshed| - 1] == cleared;
    HappenAt(After(cleared), Refresh(id, choices, at), id, scope);
  }

  /** A delayed policy that finds a candidate old enough applies an image that every
      recorded check since at least the delay ago chose. */
  lemma {:induction false} DelayedImageWasStable(history: seq<Event>, id: string, scope: string, now: int,
                                                 delay: int) returns (k: nat)
    requires WellFormed(history) && scope in SCOPES && (id, scope) in After(history)
    requires !(now < After(history)[(id, scope)].detectedAt + delay)
    ensures k < |history| && history[k].Refresh? && history[k].id == id && history[k].at <= now - delay
    ensures forall j | k <= j < |history| && history[j].id == id ::
              Chose(history[j], id, scope, After(history)[(id, scope)].image)
  {
    k := DetectionStartsStreak(history, id, scope);
  }
}
