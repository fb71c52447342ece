/** Pinning of the anonymous volumes a Dockerfile VOLUME line created, so that a
    recreated container keeps the data of the one it replaces. */
module Volumes {
  datatype MountType = TypeVolume | TypeBind | TypeOther

  /** An entry of HostConfig.Mounts. */
  datatype Mount = Mount(kind: MountType, source: string, target: string, readOnly: bool)

  /** An entry of the top-level Mounts list of an inspect response. */
  datatype MountPoint = MountPoint(kind: MountType, name: string, destination: string, rw: bool)

  /** The parts of a text between separators, as strings.Split returns them. */
  function Split(text: string, separator: char): (parts: seq<string>)
    ensures |parts| >= 1
  {
    if text == "" then [""]
    else
      var rest := Split(text[1..], separator);
      if text[0] == separator then [""] + rest
      else [[text[0]] + rest[0]] + rest[1..]
  }

  /** The target of a bind: the second of its colon-separated parts. */
  ghost predicate BindTargets(bind: string, target: string) {
    |Split(bind, ':')| >= 2 && Split(bind, ':')[1] == target
  }

  ghost predicate Covered(mounts: seq<Mount>, binds: seq<string>, tmpfs: map<string, string>, target: string) {
    || (exists m :: m in mounts && m.target == target)
    || (exists b :: b in binds && BindTargets(b, target))
    || target in tmpfs
  }

  predicate IsNamedVolume(point: MountPoint) {
    point.kind == TypeVolume && point.name != ""
  }

  function PinnedMount(point: MountPoint): Mount {
    Mount(TypeVolume, point.name, point.destination, !point.rw)
  }

  /** The mounts appended for the first points of the list. */
  ghost function Pinned(covered: iset<string>, points: seq<MountPoint>): seq<Mount> {
    if points == [] then []
    else
      var p := points[|points| - 1];
      Pinned(covered, points[..|points| - 1]) +
      if IsNamedVolume(p) && p.destination !in covered then [PinnedMount(p)] else []
  }

  ghost function CoveredSet(mounts: seq<Mount>, binds: seq<string>, tmpfs: map<string, string>): iset<string> {
    iset t: string | Covered(mounts, binds, tmpfs, t)
  }

  ghost function Preserved(mounts: seq<Mount>, binds: seq<string>, tmpfs: map<string, string>,
                           points: seq<MountPoint>): seq<Mount> {
    mounts + Pinned(CoveredSet(mounts, binds, tmpfs), points)
  }

  class HostConfig {
    var mounts: seq<Mount>
    var binds: seq<string>
    var tmpfs: map<string, string>

    constructor (mounts: seq<Mount>, binds: seq<string>, tmpfs: map<string, string>)
      ensures this.mounts == mounts && this.binds == binds && this.tmpfs == tmpfs
    {
      this.mounts, this.binds, this.tmpfs := mounts, binds, tmpfs;
    }

    method PreserveAnonymousVolumes(points: seq<MountPoint>)
      modifies this`mounts
      ensures mounts == Preserved(old(mounts), binds, tmpfs, points)
    {
      var covered: set<string> := {};
      for i := 0 to |mounts|
        invariant forall t :: t in covered <==> exists m :: m in mounts[..i] && m.target == t
        invariant mounts == old(mounts)
      {
        assert mounts[..i + 1] == mounts[..i] + [mounts[i]];
        covered := covered + {mounts[i].target};
      }
      assert mounts[..|mounts|] == mounts;
      for i := 0 to |binds|
        invariant forall t :: t in covered <==>
            (exists m :: m in mounts && m.target == t) || (exists b :: b in binds[..i] && BindTargets(b, t))
        invariant mounts == old(mounts)
      {
        assert binds[..i + 1] == binds[..i] + [binds[i]];
        var parts := Split(binds[i], ':');
        if |parts| >= 2 {
          assert BindTargets(binds[i], parts[1]);
          covered := covered + {parts[1]};
        }
      }
      assert binds[..|binds|] == binds;
      covered := covered + tmpfs.Keys;
      ghost var pinnedOver := CoveredSet(mounts, binds, tmpfs);
      assert forall t :: t in covered <==> t in pinnedOver;
      for i := 0 to |points|
        invariant mounts == old(mounts) + Pinned(pinnedOver, points[..i])
      {
        assert points[..i + 1][..i] == points[..i];
        var point := points[i];
        if point.kind != TypeVolume || point.name == "" {
          continue;
        }
        if point.destination in covered {
          continue;
        }
        mounts := mounts + [Mount(TypeVolume, point.name, point.destination, !point.rw)];
      }
      assert points[..|points|] == points;
    }
  }

  lemma {:induction false} PinnedExactly(covered: iset<string>, points: seq<MountPoint>, m: Mount)
    ensures m in Pinned(covered, points) <==>
            exists p :: p in points && IsNamedVolume(p) && p.destination !in covered && m == PinnedMount(p)
  {
    if points != [] {
      var q, rest := points[|points| - 1], points[..|points| - 1];
      assert points == rest + [q];
      PinnedExactly(covered, rest, m);
    }
  }

  /** Existing mounts stay as a prefix, and every named volume of the old
      container is mounted again: pinned by name unless its target was covered. */
  lemma PreservedCoversEveryNamedVolume(mounts: seq<Mount>, binds: seq<string>, tmpfs: map<string, string>,
                                        points: seq<MountPoint>, p: MountPoint)
    requires p in points && IsNamedVolume(p)
    ensures mounts <= Preserved(mounts, binds, tmpfs, points)
    ensures Covered(Preserved(mounts, binds, tmpfs, points), binds, tmpfs, p.destination)
    ensures !Covered(mounts, binds, tmpfs, p.destination) ==> PinnedMount(p) in Preserved(mounts, binds, tmpfs, points)
  {
    var covered := CoveredSet(mounts, binds, tmpfs);
    var out := Preserved(mounts, binds, tmpfs, points);
    PinnedExactly(covered, points, PinnedMount(p));
    if p.destination in covered {
      if m :| m in mounts && m.target == p.destination {
        assert m in out;
      }
    } else {
      assert PinnedMount(p) in out && PinnedMount(p).target == p.destination;
    }
  }

  /** What is added keeps the volume's name, place and access mode, and never covers a
      target that a mount, a bind or a tmpfs already takes. */
  lemma PinsOnlyUncovered(mounts: seq<Mount>, binds: seq<string>, tmpfs: map<string, string>,
                          points: seq<MountPoint>, m: Mount)
    requires m in Preserved(mounts, binds, tmpfs, points) && m !in mounts
    ensures m.target !in tmpfs && (forall x | x in mounts :: x.target != m.target)
    ensures forall b | b in binds && |Split(b, ':')| >= 2 :: Split(b, ':')[1] != m.target
    ensures exists p | p in points ::
              && p.kind == TypeVolume && p.name != "" && m.kind == TypeVolume
              && m.source == p.name && m.target == p.destination && m.readOnly == !p.rw
  {
    var covered := CoveredSet(mounts, binds, tmpfs);
    assert m in Pinned(covered, points);
    PinnedExactly(covered, points, m);
    assert !Covered(mounts, binds, tmpfs, m.target);
    forall b | b in binds && |Split(b, ':')| >= 2 ensures Split(b, ':')[1] != m.target {
      assert !BindTargets(b, m.target);
    }
  }

  /** The two first parts of a text are what stands before its first and second separator. */
  lemma {:induction false} SplitInTwo(a: string, b: string, separator: char)
    requires separator !in a && separator !in b
    ensures Split(a + [separator] + b, separator) == [a, b]
  {
    var text := a + [separator] + b;
    if a == "" {
      assert text[1..] == b;
      SplitWhole(b, separator);
    } else {
      assert text[1..] == a[1..] + [separator] + b;
      SplitInTwo(a[1..], b, separator);
      assert a == [a[0]] + a[1..];
    }
  }

  lemma {:induction false} SplitWhole(text: string, separator: char)
    requires separator !in text
    ensures Split(text, separator) == [text]
  {
    if text != "" {
      SplitWhole(text[1..], separator);
      assert text == [text[0]] + text[1..];
    }
  }

  lemma {:induction false} NothingToPin(covered: iset<string>, points: seq<MountPoint>)
    requires forall p :: p in points && IsNamedVolume(p) ==> p.destination in covered
    ensures Pinned(covered, points) == []
  {
    if points != [] {
      NothingToPin(covered, points[..|points| - 1]);
    }
  }

  /** A second pass adds nothing: recreating a recreated container does not stack mounts. */
  lemma PreservedIdempotent(mounts: seq<Mount>, binds: seq<string>, tmpfs: map<string, string>, points: seq<MountPoint>)
    ensures var once := Preserved(mounts, binds, tmpfs, points);
            Preserved(once, binds, tmpfs, points) == once
  {
    var once := Preserved(mounts, binds, tmpfs, points);
    forall p | p in points && IsNamedVolume(p) ensures p.destination in CoveredSet(once, binds, tmpfs) {
      PreservedCoversEveryNamedVolume(mounts, binds, tmpfs, points, p);
    }
    NothingToPin(CoveredSet(once, binds, tmpfs), points);
  }

  ghost predicate DistinctTargets(mounts: seq<Mount>) {
    forall i, j :: 0 <= i < j < |mounts| ==> mounts[i].target != mounts[j].target
  }

  ghost predicate DistinctDestinations(points: seq<MountPoint>) {
    forall i, j :: 0 <= i < j < |points| && IsNamedVolume(points[i]) && IsNamedVolume(points[j]) ==>
      points[i].destination != points[j].destination
  }

  lemma {:induction false} PinnedTargetsDistinct(covered: iset<string>, points: seq<MountPoint>)
    requires DistinctDestinations(points)
    ensures DistinctTargets(Pinned(covered, points))
  {
    if points != [] {
      var n := |points| - 1;
      var q, rest := points[n], points[..n];
      PinnedTargetsDistinct(covered, rest);
      var before := Pinned(covered, rest);
      forall i | 0 <= i < |before| && IsNamedVolume(q) ensures before[i].target != q.destination {
        PinnedExactly(covered, rest, before[i]);
        var p :| p in rest && IsNamedVolume(p) && p.destination !in covered && before[i] == PinnedMount(p);
        var k :| 0 <= k < |rest| && rest[k] == p;
        assert points[k] == p;
      }
    }
  }

  /** When no two named volumes share a destination, no target is mounted twice. */
  lemma PreservedTargetsDistinct(mounts: seq<Mount>, binds: seq<string>, tmpfs: map<string, string>,
                                 points: seq<MountPoint>)
    requires DistinctTargets(mounts) && DistinctDestinations(points)
    ensures DistinctTargets(Preserved(mounts, binds, tmpfs, points))
  {
    var covered := CoveredSet(mounts, binds, tmpfs);
    var pinned := Pinned(covered, points);
    PinnedTargetsDistinct(covered, points);
    forall i, j | 0 <= i < |mounts| && 0 <= j < |pinned| ensures mounts[i].target != pinned[j].target {
      PinnedExactly(covered, points, pinned[j]);
      assert mounts[i] in mounts;
    }
  }
}
