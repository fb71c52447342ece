/** The fixed-window limiter on authentication attempts. */
module RateLimiting {
  datatype Bucket = Bucket(count: nat, windowEnds: int)
  type Buckets = map<string, Bucket>

  /** The bucket an attempt lands in: a fresh one if there is none or its window is over. */
  function Bumped(buckets: Buckets, key: string, now: int, window: int): Buckets {
    if key !in buckets || now > buckets[key].windowEnds
    then buckets[key := Bucket(1, now + window)]
    else buckets[key := buckets[key].(count := buckets[key].count + 1)]
  }

  class RateLimiter {
    const limit: int
    const window: int
    var buckets: Buckets

    constructor (limit: int, window: int)
      ensures this.limit == limit && this.window == window && buckets == map[]
    {
      this.limit, this.window, buckets := limit, window, map[];
    }

    method Allow(key: string, now: int) returns (ok: bool)
      modifies this`buckets
      ensures buckets == Bumped(old(buckets), key, now, window)
      ensures ok <==> buckets[key].count <= limit
    {
      var b := if key in buckets then buckets[key] else Bucket(0, now);
      if key !in buckets || now > b.windowEnds {
        b := Bucket(0, now + window);
      }
      b := b.(count := b.count + 1);
      buckets := buckets[key := b];
      ok := b.count <= limit;
    }
  }

  // Traces of calls.

  datatype Attempt = Attempt(key: string, at: int)

  /** The clock never runs backwards. */
  predicate Sorted(trace: seq<Attempt>) {
    forall i, j | 0 <= i < j < |trace| :: trace[i].at <= trace[j].at
  }

  function After(trace: seq<Attempt>, window: int): Buckets {
    if trace == [] then map[]
    else
      var n := |trace| - 1;
      Bumped(After(trace[..n], window), trace[n].key, trace[n].at, window)
  }

  /** Whether the last call of the trace was let through. */
  predicate LastAdmitted(trace: seq<Attempt>, limit: int, window: int)
    requires trace != []
  {
    After(trace, window)[trace[|trace| - 1].key].count <= limit
  }

  /** The admissions of a key with a time in [lo, hi]. */
  function Admissions(trace: seq<Attempt>, limit: int, window: int, key: string, lo: int, hi: int): nat {
    if trace == [] then 0
    else
      var n := |trace| - 1;
      Admissions(trace[..n], limit, window, key, lo, hi)
        + if trace[n].key == key && lo <= trace[n].at <= hi && LastAdmitted(trace, limit, window) then 1 else 0
  }

  function Cap(limit: int): nat {
    if limit < 0 then 0 else limit
  }

  function Min(a: nat, b: nat): nat {
    if a < b then a else b
  }

  lemma {:induction false} NoCallsNoAdmissions(trace: seq<Attempt>, limit: int, window: int, key: string, lo: int,
                                               hi: int)
    requires forall i | 0 <= i < |trace| && trace[i].key == key :: !(lo <= trace[i].at <= hi)
    ensures Admissions(trace, limit, window, key, lo, hi) == 0
  {
    if trace != [] {
      NoCallsNoAdmissions(trace[..|trace| - 1], limit, window, key, lo, hi);
    }
  }

  /** A key's open window started at one of its calls and has not been outrun by any. */
  lemma {:induction false} WindowCoversCalls(trace: seq<Attempt>, window: int, key: string)
    requires Sorted(trace) && window >= 0
    ensures key !in After(trace, window) ==> forall i | 0 <= i < |trace| :: trace[i].key != key
    ensures key in After(trace, window) ==>
              && trace != [] && After(trace, window)[key].windowEnds - window <= trace[|trace| - 1].at
              && forall i | 0 <= i < |trace| && trace[i].key == key ::
                    trace[i].at <= After(trace, window)[key].windowEnds
  {
    if trace != [] {
      var front := trace[..|trace| - 1];
      WindowCoversCalls(front, window, key);
      assert forall i | 0 <= i < |front| :: front[i] == trace[i];
    }
  }

  /** The invariant of the limiter: the open window has admitted as many calls as it
      has seen, up to the limit, and an interval no longer than a window meets at most
      one window besides the open one. */
  lemma {:induction false} OpenWindow(trace: seq<Attempt>, limit: int, window: int, key: string, lo: int, hi: int)
    requires Sorted(trace) && 0 <= hi - lo <= window
    ensures key !in After(trace, window) ==> Admissions(trace, limit, window, key, lo, hi) == 0
    ensures key in After(trace, window) ==>
              var b := After(trace, window)[key];
              && (lo == b.windowEnds - window && hi == b.windowEnds ==>
                    Admissions(trace, limit, window, key, lo, hi) == Min(b.count, Cap(limit)))
              && Admissions(trace, limit, window, key, lo, hi)
                 <= if hi < b.windowEnds - window then 2 * Cap(limit)
                    else (if lo < b.windowEnds - window then Cap(limit) else 0) + Min(b.count, Cap(limit))
  {
    if trace != [] {
      var n := |trace| - 1;
      var front := trace[..n];
      OpenWindow(front, limit, window, key, lo, hi);
      WindowCoversCalls(front, window, key);
      assert forall i | 0 <= i < n :: front[i] == trace[i];
      if trace[n].key == key && lo >= trace[n].at {
        if key !in After(front, window) || trace[n].at > After(front, window)[key].windowEnds {
          NoCallsNoAdmissions(front, limit, window, key, lo, hi);
        }
      }
    }
  }

  /** The open window has admitted exactly its first calls, up to the limit. */
  lemma OpenWindowAdmitsUpToLimit(trace: seq<Attempt>, limit: int, window: int, key: string)
    requires Sorted(trace) && window >= 0 && key in After(trace, window)
    ensures var b := After(trace, window)[key];
            Admissions(trace, limit, window, key, b.windowEnds - window, b.windowEnds) == Min(b.count, Cap(limit))
  {
    var b := After(trace, window)[key];
    OpenWindow(trace, limit, window, key, b.windowEnds - window, b.windowEnds);
  }

  /** Calls that come no later than a window's end leave that window open. */
  lemma {:induction false} WindowStaysOpen(trace: seq<Attempt>, window: int, key: string, m: nat)
    requires Sorted(trace) && m <= |trace| && key in After(trace[..m], window)
    requires m < |trace| ==> trace[|trace| - 1].at <= After(trace[..m], window)[key].windowEnds
    ensures key in After(trace, window)
    ensures After(trace, window)[key].windowEnds == After(trace[..m], window)[key].windowEnds
  {
    if m == |trace| {
      assert trace[..m] == trace;
    } else {
      var front := trace[..|trace| - 1];
      assert front[..m] == trace[..m];
      WindowStaysOpen(front, window, key, m);
    }
  }

  /** Whatever calls follow, no window a key ever opened admits more than the limit. */
  lemma {:induction false} EveryWindowIsCapped(trace: seq<Attempt>, limit: int, window: int, key: string, m: nat)
    requires Sorted(trace) && window >= 0 && m <= |trace| && key in After(trace[..m], window)
    ensures var ends := After(trace[..m], window)[key].windowEnds;
            Admissions(trace, limit, window, key, ends - window, ends) <= Cap(limit)
  {
    var ends := After(trace[..m], window)[key].windowEnds;
    if m == |trace| || trace[|trace| - 1].at <= ends {
      WindowStaysOpen(trace, window, key, m);
      OpenWindowAdmitsUpToLimit(trace, limit, window, key);
    } else {
      var front := trace[..|trace| - 1];
      assert front[..m] == trace[..m];
      EveryWindowIsCapped(front, limit, window, key, m);
    }
  }

  /** No closed interval as long as a window holds more than twice the limit. */
  lemma TwiceTheLimit(trace: seq<Attempt>, limit: int, window: int, key: string, lo: int, hi: int)
    requires Sorted(trace) && hi - lo <= window
    ensures Admissions(trace, limit, window, key, lo, hi) <= 2 * Cap(limit)
  {
    if hi < lo {
      NoCallsNoAdmissions(trace, limit, window, key, lo, hi);
    } else {
      OpenWindow(trace, limit, window, key, lo, hi);
    }
  }

  function Only(trace: seq<Attempt>, key: string): seq<Attempt> {
    if trace == [] then []
    else
      var n := |trace| - 1;
      Only(trace[..n], key) + if trace[n].key == key then [trace[n]] else []
  }

  predicate SameBucket(a: Buckets, b: Buckets, key: string) {
    (key in a <==> key in b) && (key in a ==> a[key] == b[key])
  }

  lemma AfterStep(front: seq<Attempt>, last: Attempt, window: int)
    ensures After(front + [last], window) == Bumped(After(front, window), last.key, last.at, window)
  {
  }

  lemma AdmissionsStep(front: seq<Attempt>, last: Attempt, limit: int, window: int, key: string, lo: int, hi: int)
    ensures Admissions(front + [last], limit, window, key, lo, hi) ==
            Admissions(front, limit, window, key, lo, hi)
              + if last.key == key && lo <= last.at <= hi && LastAdmitted(front + [last], limit, window) then 1 else 0
  {
  }

  lemma {:induction false} SameBucketAlone(trace: seq<Attempt>, window: int, key: string)
    ensures SameBucket(After(trace, window), After(Only(trace, key), window), key)
  {
    if trace != [] {
      var n := |trace| - 1;
      SameBucketAlone(trace[..n], window, key);
      if trace[n].key == key {
        AfterStep(Only(trace[..n], key), trace[n], window);
      } else {
        assert Only(trace, key) == Only(trace[..n], key);
      }
    }
  }

  /** A key fares as if no other had ever called. */
  lemma {:induction false} KeysAreIndependent(trace: seq<Attempt>, limit: int, window: int, key: string, lo: int,
                                              hi: int)
    ensures SameBucket(After(trace, window), After(Only(trace, key), window), key)
    ensures Admissions(trace, limit, window, key, lo, hi) == Admissions(Only(trace, key), limit, window, key, lo, hi)
  {
    SameBucketAlone(trace, window, key);
    if trace != [] {
      var n := |trace| - 1;
      KeysAreIndependent(trace[..n], limit, window, key, lo, hi);
      if trace[n].key == key {
        AdmissionsStep(Only(trace[..n], key), trace[n], limit, window, key, lo, hi);
      } else {
        assert Only(trace, key) == Only(trace[..n], key);
      }
    }
  }
}
