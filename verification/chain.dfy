/**
  The cluster-chain walk print_dirent runs for a regular file: credit every
  visited cluster in the reference table, mark the entry as a cross-link
  loser when a cluster was already claimed, and repair a self-link or a link
  to the bad-cluster sentinel by ending the chain there.

  The walk only breaks direct self-links, so a longer cycle in the FAT makes
  it run forever. ChainWalk therefore takes a step budget; it is proved below
  that a budget of g.clusterLimit steps is enough for every walk that
  finishes at all, so running out of it means the program's loop never exits.
 */
module Chain {
  import opened Fat

  datatype Stop = RanOff | SelfLink | BadLink

  /**
    What a finished walk leaves behind: the FAT and reference table after it,
    whether some visited cluster was already claimed, the visited clusters
    in order (their number is the cluster count of the size rule) and why it
    stopped.
   */
  datatype Walk = Walk(fat: seq<Link>, refs: seq<nat>, crossLinked: bool, visited: seq<nat>, stop: Stop)

  function ChainWalk(g: Geometry, fat: seq<Link>, refs: seq<nat>, c: int, fuel: nat): (o: Outcome<Walk>)
    requires |fat| == FatEntries && |refs| >= g.clusterLimit
    ensures o.Done? ==> |o.value.fat| == FatEntries && |o.value.refs| == |refs|
    ensures o.Done? ==> forall i :: 0 <= i < |o.value.visited| ==> IsValidCluster(g, o.value.visited[i])
    ensures o.Done? ==> FatRepairOnly(fat, o.value.fat) && ClaimsOnly(refs, o.value.refs)
    decreases fuel
  {
    if !IsValidCluster(g, c) then Done(Walk(fat, refs, false, [], RanOff))
    else if fuel == 0 then OutOfFuel
    else
      var bumped := refs[c] + 1;
      var cross := bumped > 1;
      var refs1 := refs[c := if cross then bumped - 1 else bumped];
      var next := fat[c];
      if next == c then Done(Walk(fat[c := EndOfChain], refs1, cross, [c], SelfLink))
      else if next == Bad then Done(Walk(fat[Bad := Free][c := EndOfChain], refs1, cross, [c], BadLink))
      else match ChainWalk(g, fat, refs1, next, fuel - 1)
        case OutOfFuel => OutOfFuel
        case Done(w) => Done(w.(crossLinked := cross || w.crossLinked, visited := [c] + w.visited))
  }

  /** `v` is the path the FAT links from `start`: each step a valid cluster other than the one before. */
  predicate FollowsFat(g: Geometry, fat: seq<Link>, start: int, v: seq<nat>)
    requires |fat| == FatEntries
  {
    && (|v| == 0 <==> !IsValidCluster(g, start))
    && (|v| > 0 ==> v[0] == start)
    && (forall i :: 0 <= i < |v| ==> IsValidCluster(g, v[i]))
    && (forall i :: 0 <= i < |v| - 1 ==> fat[v[i]] == v[i + 1] && v[i + 1] != v[i])
  }

  /** The link read from the last visited cluster ends the walk, and says how. */
  predicate StoppedBy(g: Geometry, fat: seq<Link>, v: seq<nat>, stop: Stop)
    requires |fat| == FatEntries
    requires forall i :: 0 <= i < |v| ==> IsValidCluster(g, v[i])
  {
    if |v| == 0 then stop == RanOff
    else
      var last := v[|v| - 1];
      assert IsValidCluster(g, v[|v| - 1]);
      && (stop == SelfLink <==> fat[last] == last)
      && (stop == BadLink <==> fat[last] == Bad)
      && (stop == RanOff ==> !IsValidCluster(g, fat[last]))
  }

  /** The FAT after the walk: untouched, or the last cluster made end-of-chain (and entry 0xFF7 freed). */
  predicate RepairedFat(fat: seq<Link>, v: seq<nat>, stop: Stop, fat': seq<Link>)
    requires |fat| == FatEntries
    requires forall i :: 0 <= i < |v| ==> v[i] < Bad
  {
    match stop
    case RanOff => fat' == fat
    case SelfLink => |v| > 0 && fat' == fat[v[|v| - 1] := EndOfChain]
    case BadLink => |v| > 0 && fat' == fat[Bad := Free][v[|v| - 1] := EndOfChain]
  }

  lemma {:induction false} WalkPath(g: Geometry, fat: seq<Link>, refs: seq<nat>, c: int, fuel: nat)
    requires |fat| == FatEntries && |refs| >= g.clusterLimit
    requires ChainWalk(g, fat, refs, c, fuel).Done?
    ensures var w := ChainWalk(g, fat, refs, c, fuel).value;
            && FollowsFat(g, fat, c, w.visited)
            && StoppedBy(g, fat, w.visited, w.stop)
            && RepairedFat(fat, w.visited, w.stop, w.fat)
            && |w.visited| <= fuel
    decreases fuel
  {
    if IsValidCluster(g, c) {
      var bumped := refs[c] + 1;
      var refs1 := refs[c := if bumped > 1 then bumped - 1 else bumped];
      var next := fat[c];
      if next != c && next != Bad {
        WalkPath(g, fat, refs1, next, fuel - 1);
        ChainWalkStep(g, fat, refs, c, fuel);
        var w := ChainWalk(g, fat, refs1, next, fuel - 1).value;
        FollowsCons(g, fat, c, w.visited);
        StoppedCons(g, fat, c, w.visited, w.stop);
        RepairedCons(fat, c, w.visited, w.stop, w.fat);
      }
    }
  }

  /** A walk that goes on past `c` is `c` followed by the walk from `fat[c]`. */
  lemma ChainWalkStep(g: Geometry, fat: seq<Link>, refs: seq<nat>, c: int, fuel: nat)
    requires |fat| == FatEntries && |refs| >= g.clusterLimit
    requires IsValidCluster(g, c) && fat[c] != c && fat[c] != Bad
    requires ChainWalk(g, fat, refs, c, fuel).Done?
    ensures var bumped := refs[c] + 1;
            var refs1 := refs[c := if bumped > 1 then bumped - 1 else bumped];
            var o := ChainWalk(g, fat, refs1, fat[c], fuel - 1);
            var w := ChainWalk(g, fat, refs, c, fuel).value;
            && fuel > 0 && o.Done?
            && w.visited == [c] + o.value.visited && w.stop == o.value.stop && w.fat == o.value.fat
  {
  }

  lemma FollowsCons(g: Geometry, fat: seq<Link>, c: int, v: seq<nat>)
    requires |fat| == FatEntries
    requires IsValidCluster(g, c) && fat[c] != c && FollowsFat(g, fat, fat[c], v)
    ensures FollowsFat(g, fat, c, [c] + v)
  {
    var u := [c] + v;
    forall i | 0 <= i < |u| - 1 ensures fat[u[i]] == u[i + 1] && u[i + 1] != u[i] {
      if i > 0 {
        assert u[i] == v[i - 1] && u[i + 1] == v[i];
      }
    }
  }

  lemma StoppedCons(g: Geometry, fat: seq<Link>, c: int, v: seq<nat>, stop: Stop)
    requires |fat| == FatEntries
    requires IsValidCluster(g, c) && fat[c] != c && fat[c] != Bad
    requires FollowsFat(g, fat, fat[c], v) && StoppedBy(g, fat, v, stop)
    ensures FollowsFat(g, fat, c, [c] + v) ==> StoppedBy(g, fat, [c] + v, stop)
  {
    var u := [c] + v;
    assert u[|u| - 1] == if |v| == 0 then c else v[|v| - 1];
  }

  lemma RepairedCons(fat: seq<Link>, c: nat, v: seq<nat>, stop: Stop, fat': seq<Link>)
    requires |fat| == FatEntries && c < Bad
    requires forall i :: 0 <= i < |v| ==> v[i] < Bad
    requires RepairedFat(fat, v, stop, fat')
    ensures forall i :: 0 <= i < |[c] + v| ==> ([c] + v)[i] < Bad
    ensures RepairedFat(fat, [c] + v, stop, fat')
  {
    var u := [c] + v;
    assert |v| > 0 ==> u[|u| - 1] == v[|v| - 1];
  }

  /** Every visited cluster ends with refs = max(old refs, 1); no other count changes. */
  lemma {:induction false} WalkRefs(g: Geometry, fat: seq<Link>, refs: seq<nat>, c: int, fuel: nat)
    requires |fat| == FatEntries && |refs| >= g.clusterLimit
    requires ChainWalk(g, fat, refs, c, fuel).Done?
    ensures var w := ChainWalk(g, fat, refs, c, fuel).value;
            forall x :: 0 <= x < |refs| ==>
              w.refs[x] == if x in w.visited then Max(refs[x], 1) else refs[x]
    decreases fuel
  {
    if IsValidCluster(g, c) {
      var bumped := refs[c] + 1;
      var refs1 := refs[c := if bumped > 1 then bumped - 1 else bumped];
      var next := fat[c];
      if next != c && next != Bad {
        WalkRefs(g, fat, refs1, next, fuel - 1);
      }
    }
  }

  /** The path of a walk that finishes never repeats a cluster. */
  lemma PathDistinct(g: Geometry, fat: seq<Link>, start: int, v: seq<nat>, stop: Stop)
    requires |fat| == FatEntries
    requires FollowsFat(g, fat, start, v) && StoppedBy(g, fat, v, stop)
    ensures forall i, j :: 0 <= i < j < |v| ==> v[i] != v[j]
  {
    forall i, j | 0 <= i < j < |v|
      ensures v[i] != v[j]
    {
      NoRepeat(g, fat, start, v, stop, i, j);
    }
  }

  lemma {:induction false} NoRepeat(g: Geometry, fat: seq<Link>, start: int, v: seq<nat>, stop: Stop, i: nat, j: nat)
    requires |fat| == FatEntries
    requires FollowsFat(g, fat, start, v) && StoppedBy(g, fat, v, stop)
    requires i < j < |v|
    ensures v[i] != v[j]
    decreases |v| - j
  {
    assert fat[v[i]] == v[i + 1] && v[i + 1] != v[i] && IsValidCluster(g, v[i + 1]);
    if j < |v| - 1 {
      NoRepeat(g, fat, start, v, stop, i + 1, j + 1);
    } else {
      assert fat[v[j]] == v[j] || !IsValidCluster(g, fat[v[j]]) by {
        match stop
        case SelfLink =>
        case BadLink =>
        case RanOff =>
      }
    }
  }

  /** The entry is marked a cross-link loser exactly when some cluster of its chain was already claimed. */
  lemma {:induction false} WalkCrossLink(g: Geometry, fat: seq<Link>, refs: seq<nat>, c: int, fuel: nat)
    requires |fat| == FatEntries && |refs| >= g.clusterLimit
    requires ChainWalk(g, fat, refs, c, fuel).Done?
    ensures var w := ChainWalk(g, fat, refs, c, fuel).value;
            w.crossLinked <==> Claimed(refs, w.visited)
    decreases fuel
  {
    var w := ChainWalk(g, fat, refs, c, fuel).value;
    if IsValidCluster(g, c) {
      var bumped := refs[c] + 1;
      var refs1 := refs[c := if bumped > 1 then bumped - 1 else bumped];
      var next := fat[c];
      if next != c && next != Bad {
        var t := ChainWalk(g, fat, refs1, next, fuel - 1).value;
        WalkCrossLink(g, fat, refs1, next, fuel - 1);
        WalkPath(g, fat, refs, c, fuel);
        PathDistinct(g, fat, c, w.visited, w.stop);
        assert w.visited == [c] + t.visited;
        forall i | 0 <= i < |t.visited| ensures t.visited[i] != c {
          assert t.visited[i] == w.visited[i + 1];
        }
        ClaimedCons(refs, refs1, c, t.visited);
      } else {
        assert w.visited == [c];
        assert Claimed(refs, [c]) <==> refs[c] >= 1;
      }
    }
  }

  /** Some cluster of `v` already had a claimant in `refs`. */
  predicate Claimed(refs: seq<nat>, v: seq<nat>) {
    exists i :: 0 <= i < |v| && v[i] < |refs| && refs[v[i]] >= 1
  }

  lemma ClaimedCons(refs: seq<nat>, refs1: seq<nat>, c: nat, t: seq<nat>)
    requires c < |refs| && refs1 == refs[c := Max(refs[c], 1)]
    requires forall i :: 0 <= i < |t| ==> t[i] != c
    ensures Claimed(refs, [c] + t) <==> refs[c] >= 1 || Claimed(refs1, t)
  {
    var v := [c] + t;
    if Claimed(refs, v) {
      var i :| 0 <= i < |v| && v[i] < |refs| && refs[v[i]] >= 1;
      if i > 0 {
        assert v[i] == t[i - 1];
      }
    }
    if Claimed(refs1, t) {
      var i :| 0 <= i < |t| && t[i] < |refs1| && refs1[t[i]] >= 1;
      assert v[i + 1] == t[i];
    }
  }

  /** Once a walk finishes within some budget, every budget of at least its length gives the same walk. */
  lemma {:induction false} FuelMonotone(g: Geometry, fat: seq<Link>, refs: seq<nat>, c: int, fuel: nat, fuel': nat)
    requires |fat| == FatEntries && |refs| >= g.clusterLimit
    requires ChainWalk(g, fat, refs, c, fuel).Done?
    requires fuel' >= |ChainWalk(g, fat, refs, c, fuel).value.visited|
    ensures ChainWalk(g, fat, refs, c, fuel') == ChainWalk(g, fat, refs, c, fuel)
    decreases fuel
  {
    if IsValidCluster(g, c) {
      var bumped := refs[c] + 1;
      var refs1 := refs[c := if bumped > 1 then bumped - 1 else bumped];
      var next := fat[c];
      if next != c && next != Bad {
        FuelMonotone(g, fat, refs1, next, fuel - 1, fuel' - 1);
      }
    }
  }

  /** A sequence of distinct members of `s` is no longer than `s` has members. */
  lemma {:induction false} DistinctWithin(v: seq<nat>, s: set<nat>)
    requires forall i :: 0 <= i < |v| ==> v[i] in s
    requires forall i, j :: 0 <= i < j < |v| ==> v[i] != v[j]
    ensures |v| <= |s|
    decreases |v|
  {
    if |v| > 0 {
      var rest := v[1..];
      forall i | 0 <= i < |rest| ensures rest[i] in s - {v[0]} {
        assert rest[i] == v[i + 1];
      }
      DistinctWithin(rest, s - {v[0]});
    }
  }

  function ClusterRange(n: nat): (s: set<nat>)
    ensures |s| == n
    ensures forall x :: x in s <==> 0 <= x < n
  {
    if n == 0 then {} else ClusterRange(n - 1) + {n - 1}
  }

  /**
    A budget of g.clusterLimit steps is enough: if the walk finishes with any
    budget, it finishes with that one and gives the same result.
   */
  lemma FuelSufficient(g: Geometry, fat: seq<Link>, refs: seq<nat>, c: int, fuel: nat, fuel': nat)
    requires |fat| == FatEntries && |refs| >= g.clusterLimit
    requires ChainWalk(g, fat, refs, c, fuel).Done?
    requires fuel' >= g.clusterLimit
    ensures ChainWalk(g, fat, refs, c, fuel') == ChainWalk(g, fat, refs, c, fuel)
  {
    var w := ChainWalk(g, fat, refs, c, fuel).value;
    WalkPath(g, fat, refs, c, fuel);
    PathDistinct(g, fat, c, w.visited, w.stop);
    DistinctWithin(w.visited, ClusterRange(g.clusterLimit));
    FuelMonotone(g, fat, refs, c, fuel, fuel');
  }

  /** Two clusters linked to each other make the walk run forever: no budget is enough. */
  lemma {:induction false} TwoCycleDiverges(g: Geometry, fat: seq<Link>, refs: seq<nat>, a: int, b: int, fuel: nat)
    requires |fat| == FatEntries && |refs| >= g.clusterLimit
    requires IsValidCluster(g, a) && IsValidCluster(g, b) && a != b
    requires fat[a] == b && fat[b] == a
    ensures ChainWalk(g, fat, refs, a, fuel) == OutOfFuel
    decreases fuel
  {
    if fuel > 0 {
      var bumped := refs[a] + 1;
      var refs1 := refs[a := if bumped > 1 then bumped - 1 else bumped];
      TwoCycleDiverges(g, fat, refs1, b, a, fuel - 1);
    }
  }

  /** A finished walk with crossing flag and visited clusters put in front. */
  function Prefixed(cross: bool, visited: seq<nat>, o: Outcome<Walk>): Outcome<Walk> {
    match o
    case OutOfFuel => OutOfFuel
    case Done(w) => Done(w.(crossLinked := cross || w.crossLinked, visited := visited + w.visited))
  }

  lemma PrefixedNothing(o: Outcome<Walk>)
    ensures Prefixed(false, [], o) == o
  {
    if o.Done? {
      assert [] + o.value.visited == o.value.visited;
    }
  }

  lemma PrefixedStep(cross: bool, visited: seq<nat>, c: nat, cross1: bool, o: Outcome<Walk>)
    ensures Prefixed(cross, visited, Prefixed(cross1, [c], o)) == Prefixed(cross || cross1, visited + [c], o)
  {
    if o.Done? {
      assert visited + ([c] + o.value.visited) == (visited + [c]) + o.value.visited;
    }
  }

  /** The loop of print_dirent, with its budget of g.clusterLimit steps. */
  method WalkChain(g: Geometry, fat: seq<Link>, refs: seq<nat>, start: int) returns (o: Outcome<Walk>)
    requires |fat| == FatEntries && |refs| >= g.clusterLimit
    ensures o == ChainWalk(g, fat, refs, start, g.clusterLimit)
  {
    var cluster := start;
    var r := refs;
    var cross := false;
    var visited: seq<nat> := [];
    var fuel: nat := g.clusterLimit;
    PrefixedNothing(ChainWalk(g, fat, refs, start, g.clusterLimit));
    while IsValidCluster(g, cluster)
      invariant |r| == |refs|
      invariant ChainWalk(g, fat, refs, start, g.clusterLimit)
                == Prefixed(cross, visited, ChainWalk(g, fat, r, cluster, fuel))
      decreases fuel
    {
      if fuel == 0 {
        return OutOfFuel;
      }
      ghost var r0, cross0 := r, cross;
      r := r[cluster := r[cluster] + 1];
      ghost var claimed := r[cluster] > 1;
      if r[cluster] > 1 {
        cross := true;
        r := r[cluster := r[cluster] - 1];
      }
      assert r == r0[cluster := if r0[cluster] + 1 > 1 then r0[cluster] + 1 - 1 else r0[cluster] + 1];
      var prev := cluster;
      cluster := fat[cluster];
      if prev == cluster {
        return Done(Walk(fat[cluster := EndOfChain], r, cross, visited + [prev], SelfLink));
      }
      if cluster == Bad {
        return Done(Walk(fat[Bad := Free][prev := EndOfChain], r, cross, visited + [prev], BadLink));
      }
      PrefixedStep(cross0, visited, prev, claimed, ChainWalk(g, fat, r, cluster, fuel - 1));
      visited := visited + [prev];
      fuel := fuel - 1;
    }
    assert visited + [] == visited;
    return Done(Walk(fat, r, cross, visited, RanOff));
  }
}
