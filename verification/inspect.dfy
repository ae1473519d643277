/**
  print_dirent: classify a slot; hand a visible subdirectory's start cluster
  back to the walker; for a regular file walk and repair its chain, mark the
  entry deleted when it lost a cross-link, and reconcile its size with the
  number of clusters walked. Its diagnostics are output only and left out.
 */
module Inspect {
  import opened Fat
  import opened Dirent
  import opened Chain
  import opened Size

  /**
    The slot after inspection with the FAT and reference table it leaves,
    the cluster to descend into (0: none) and the clusters the chain walk
    visited (empty unless the slot is a regular file).
   */
  datatype Inspected = Inspected(follow: u16, entry: Entry, fat: seq<Link>, refs: seq<nat>, chain: seq<nat>)

  function InspectEntry(g: Geometry, e: Entry, fat: seq<Link>, refs: seq<nat>): (o: Outcome<Inspected>)
    requires WellFormedEntry(e) && |fat| == FatEntries && |refs| >= g.clusterLimit
    ensures Skipped(Classify(e)) ==> o == Done(Inspected(0, e, fat, refs, []))
    ensures Classify(e).Subdir? ==> o == Done(Inspected(e.start, e, fat, refs, []))
    ensures o.Done? ==> o.value.follow == FollowOf(Classify(e))
    ensures o.Done? ==> SlotKept(e, o.value.entry)
    ensures o.Done? ==> |o.value.fat| == FatEntries && |o.value.refs| == |refs|
    ensures o.Done? ==> FatRepairOnly(fat, o.value.fat) && ClaimsOnly(refs, o.value.refs)
  {
    match Classify(e)
    case RegularFile =>
      (match ChainWalk(g, fat, refs, e.start, g.clusterLimit)
       case OutOfFuel => OutOfFuel
       case Done(w) =>
         var name := if w.crossLinked then e.name[0 := SlotDeleted] else e.name;
         var size := ReconcileSize(e.size, |w.visited|);
         Done(Inspected(0, e.(name := name, size := size), w.fat, w.refs, w.visited)))
    case _ => Done(Inspected(FollowOf(Classify(e)), e, fat, refs, []))
  }

  /**
    A regular file's inspection: the chain is the FAT path from the start
    cluster, each of its clusters is credited as max(old, 1), the entry is
    deleted exactly when one of them was already claimed, the FAT is repaired
    only at the last cluster (and at entry 0xFF7 for a bad link), and the
    size lands in the chain's 512-byte window.
   */
  lemma InspectFile(g: Geometry, e: Entry, fat: seq<Link>, refs: seq<nat>)
    requires WellFormedEntry(e) && |fat| == FatEntries && |refs| >= g.clusterLimit
    requires Classify(e) == RegularFile
    requires InspectEntry(g, e, fat, refs).Done?
    ensures var r := InspectEntry(g, e, fat, refs).value;
            && r.follow == 0
            && FollowsFat(g, fat, e.start, r.chain)
            && (forall i, j :: 0 <= i < j < |r.chain| ==> r.chain[i] != r.chain[j])
            && (forall x :: 0 <= x < |refs| ==>
                  r.refs[x] == if x in r.chain then Max(refs[x], 1) else refs[x])
            && (r.entry.name[0] == SlotDeleted <==> Claimed(refs, r.chain))
            && (|r.chain| == 0 ==> r.entry.size == 0)
            && (|r.chain| >= 1 ==>
                  (|r.chain| - 1) * ClusterBytes < r.entry.size <= |r.chain| * ClusterBytes)
            && r.entry.size == ReconcileSize(e.size, |r.chain|)
  {
    var w := ChainWalk(g, fat, refs, e.start, g.clusterLimit).value;
    WalkPath(g, fat, refs, e.start, g.clusterLimit);
    WalkRefs(g, fat, refs, e.start, g.clusterLimit);
    WalkCrossLink(g, fat, refs, e.start, g.clusterLimit);
    PathDistinct(g, fat, e.start, w.visited, w.stop);
    forall i | 0 <= i < |w.visited| ensures w.visited[i] in ClusterRange(Bad) {
      assert IsValidCluster(g, w.visited[i]);
    }
    DistinctWithin(w.visited, ClusterRange(Bad));
  }

  /** The FAT a regular file's inspection leaves: repaired at the end of its chain only. */
  lemma InspectFileFat(g: Geometry, e: Entry, fat: seq<Link>, refs: seq<nat>)
    requires WellFormedEntry(e) && |fat| == FatEntries && |refs| >= g.clusterLimit
    requires Classify(e) == RegularFile
    requires InspectEntry(g, e, fat, refs).Done?
    ensures var r := InspectEntry(g, e, fat, refs).value;
            var w := ChainWalk(g, fat, refs, e.start, g.clusterLimit).value;
            && r.chain == w.visited
            && StoppedBy(g, fat, r.chain, w.stop)
            && RepairedFat(fat, r.chain, w.stop, r.fat)
  {
    WalkPath(g, fat, refs, e.start, g.clusterLimit);
  }

  /**
    The inspector only hangs on a chain no budget can finish: whenever some
    budget lets the walk finish, the inspection finishes too.
   */
  lemma InspectFinishes(g: Geometry, e: Entry, fat: seq<Link>, refs: seq<nat>, fuel: nat)
    requires WellFormedEntry(e) && |fat| == FatEntries && |refs| >= g.clusterLimit
    requires ChainWalk(g, fat, refs, e.start, fuel).Done?
    ensures InspectEntry(g, e, fat, refs).Done?
  {
    FuelSufficient(g, fat, refs, e.start, fuel, g.clusterLimit);
  }

  /**
    Two files starting at the same unclaimed cluster: the first keeps its
    claim, the second is marked deleted, and the cluster's count ends at 1.
   */
  lemma SecondClaimantDeleted(g: Geometry, e1: Entry, e2: Entry, fat: seq<Link>, refs: seq<nat>)
    requires WellFormedEntry(e1) && WellFormedEntry(e2) && |fat| == FatEntries && |refs| >= g.clusterLimit
    requires Classify(e1) == RegularFile && Classify(e2) == RegularFile
    requires e1.start == e2.start && IsValidCluster(g, e1.start) && refs[e1.start] == 0
    requires InspectEntry(g, e1, fat, refs).Done?
    requires InspectEntry(g, e2, InspectEntry(g, e1, fat, refs).value.fat,
                          InspectEntry(g, e1, fat, refs).value.refs).Done?
    ensures var r1 := InspectEntry(g, e1, fat, refs).value;
            var r2 := InspectEntry(g, e2, r1.fat, r1.refs).value;
            && r2.entry.name[0] == SlotDeleted
            && r2.refs[e1.start] == 1
  {
    var s := e1.start;
    var r1 := InspectEntry(g, e1, fat, refs).value;
    InspectFile(g, e1, fat, refs);
    assert r1.chain[0] == s;
    assert r1.refs[s] == 1;
    var r2 := InspectEntry(g, e2, r1.fat, r1.refs).value;
    InspectFile(g, e2, r1.fat, r1.refs);
    assert r2.chain[0] == s;
    assert Claimed(r1.refs, r2.chain);
  }

  /** A cluster linked to itself: it is the whole chain, it is made end-of-chain, and it counts once. */
  lemma SelfLinkRepaired(g: Geometry, e: Entry, fat: seq<Link>, refs: seq<nat>)
    requires WellFormedEntry(e) && |fat| == FatEntries && |refs| >= g.clusterLimit
    requires Classify(e) == RegularFile && IsValidCluster(g, e.start) && fat[e.start] == e.start
    ensures InspectEntry(g, e, fat, refs).Done?
    ensures var r := InspectEntry(g, e, fat, refs).value;
            && r.chain == [e.start]
            && r.fat == fat[e.start := EndOfChain]
            && r.entry.size == ReconcileSize(e.size, 1)
  {
  }
}
