/**
  The directory walk: traverse_root inspects the fixed-size root region slot
  by slot; for a visible subdirectory it credits the start cluster once in
  the reference table and descends with follow_dir. follow_dir inspects
  every slot of every cluster of a directory's own chain, descending into
  nested subdirectories without crediting them.

  scandisk has no guard against directory cycles, nor against a
  directory chain that loops in the FAT, so the recursion carries a budget:
  every cluster entered on one path of the recursion costs one unit, and
  OutOfFuel means the budget ran out.
 */
module Walker {
  import opened Fat
  import opened Dirent
  import opened Inspect

  /** Every slot of `a'` is its counterpart in `a` as inspection may leave it. */
  predicate SlotsKept(a: seq<Entry>, a': seq<Entry>)
    requires WellFormedSlots(a)
  {
    |a'| == |a| && forall i :: 0 <= i < |a| ==> SlotKept(a[i], a'[i])
  }

  /**
    What a walk may do to the scan state: repair the FAT, raise counts, and
    in each slot mark the name deleted or rewrite the size. Nothing else.
   */
  predicate Evolves(g: Geometry, s: Scan, s': Scan)
    requires WellFormedScan(g, s)
  {
    && FatRepairOnly(s.fat, s'.fat)
    && RefsGrow(s.refs, s'.refs)
    && SlotsKept(s.root, s'.root)
    && |s'.data| == |s.data|
    && forall c :: 0 <= c < |s.data| ==> SlotsKept(s.data[c], s'.data[c])
  }

  lemma EvolvesReflexive(g: Geometry, s: Scan)
    requires WellFormedScan(g, s)
    ensures Evolves(g, s, s)
  {
  }

  lemma EvolvesTransitive(g: Geometry, s1: Scan, s2: Scan, s3: Scan)
    requires WellFormedScan(g, s1) && WellFormedScan(g, s2)
    requires Evolves(g, s1, s2) && Evolves(g, s2, s3)
    ensures Evolves(g, s1, s3)
  {
    forall c | 0 <= c < |s1.data|
      ensures SlotsKept(s1.data[c], s3.data[c])
    {
      assert SlotsKept(s1.data[c], s2.data[c]);
      assert SlotsKept(s2.data[c], s3.data[c]);
    }
  }

  /** The state after writing an inspected slot back into data cluster `c`. */
  function StoreInCluster(g: Geometry, s: Scan, c: nat, i: nat, r: Inspected): (s': Scan)
    requires WellFormedScan(g, s) && c < FatEntries && i < SlotsPerCluster(g)
    requires SlotKept(s.data[c][i], r.entry)
    requires FatRepairOnly(s.fat, r.fat) && RefsGrow(s.refs, r.refs)
    ensures WellFormedScan(g, s') && Evolves(g, s, s')
  {
    s.(fat := r.fat, refs := r.refs, data := s.data[c := s.data[c][i := r.entry]])
  }

  /** follow_dir: every cluster of the directory chain from `cluster`, slot by slot. */
  function FollowDir(g: Geometry, s: Scan, cluster: int, fuel: nat): (o: Outcome<Scan>)
    requires WellFormedScan(g, s)
    ensures o.Done? ==> WellFormedScan(g, o.value) && Evolves(g, s, o.value)
    ensures o.Done? ==> ClaimsOnly(s.refs, o.value.refs) && o.value.root == s.root
    decreases fuel, 0
  {
    if !IsValidCluster(g, cluster) then Done(s)
    else if fuel == 0 then OutOfFuel
    else match ScanCluster(g, s, cluster, 0, fuel - 1)
      case OutOfFuel => OutOfFuel
      case Done(s1) =>
        match FollowDir(g, s1, s1.fat[cluster], fuel - 1)
        case OutOfFuel => OutOfFuel
        case Done(s2) =>
          EvolvesTransitive(g, s, s1, s2);
          ClaimsOnlyTransitive(s.refs, s1.refs, s2.refs);
          Done(s2)
  }

  /** One pass of follow_dir's inner loop: inspect slot `i` of a directory cluster and descend. */
  function ClusterSlot(g: Geometry, s: Scan, cluster: nat, i: nat, fuel: nat): (o: Outcome<Scan>)
    requires WellFormedScan(g, s) && cluster < FatEntries && i < SlotsPerCluster(g)
    ensures o.Done? ==> WellFormedScan(g, o.value) && Evolves(g, s, o.value)
    ensures o.Done? ==> ClaimsOnly(s.refs, o.value.refs) && o.value.root == s.root
    decreases fuel, 1, SlotsPerCluster(g) - i, 0
  {
    match InspectEntry(g, s.data[cluster][i], s.fat, s.refs)
    case OutOfFuel => OutOfFuel
    case Done(r) =>
      var s1 := StoreInCluster(g, s, cluster, i, r);
      if r.follow != 0 then
        match FollowDir(g, s1, r.follow, fuel)
        case OutOfFuel => OutOfFuel
        case Done(s2) =>
          EvolvesTransitive(g, s, s1, s2);
          ClaimsOnlyTransitive(s.refs, s1.refs, s2.refs);
          Done(s2)
      else Done(s1)
  }

  /** The slots of one directory cluster from slot `i` on. */
  function ScanCluster(g: Geometry, s: Scan, cluster: nat, i: nat, fuel: nat): (o: Outcome<Scan>)
    requires WellFormedScan(g, s) && cluster < FatEntries && i <= SlotsPerCluster(g)
    ensures o.Done? ==> WellFormedScan(g, o.value) && Evolves(g, s, o.value)
    ensures o.Done? ==> ClaimsOnly(s.refs, o.value.refs) && o.value.root == s.root
    decreases fuel, 1, SlotsPerCluster(g) - i, 1
  {
    if i == SlotsPerCluster(g) then EvolvesReflexive(g, s); Done(s)
    else match ClusterSlot(g, s, cluster, i, fuel)
      case OutOfFuel => OutOfFuel
      case Done(s1) =>
        match ScanCluster(g, s1, cluster, i + 1, fuel)
        case OutOfFuel => OutOfFuel
        case Done(s2) =>
          EvolvesTransitive(g, s, s1, s2);
          ClaimsOnlyTransitive(s.refs, s1.refs, s2.refs);
          Done(s2)
  }

  lemma ScanClusterStep(g: Geometry, s: Scan, cluster: nat, i: nat, fuel: nat)
    requires WellFormedScan(g, s) && cluster < FatEntries && i < SlotsPerCluster(g)
    ensures ClusterSlot(g, s, cluster, i, fuel).OutOfFuel? ==> ScanCluster(g, s, cluster, i, fuel).OutOfFuel?
    ensures ClusterSlot(g, s, cluster, i, fuel).Done? ==>
              ScanCluster(g, s, cluster, i, fuel)
                == ScanCluster(g, ClusterSlot(g, s, cluster, i, fuel).value, cluster, i + 1, fuel)
  {
  }

  lemma ClusterSlotFollowed(g: Geometry, s: Scan, cluster: nat, i: nat, fuel: nat, r: Inspected)
    requires WellFormedScan(g, s) && cluster < FatEntries && i < SlotsPerCluster(g)
    requires InspectEntry(g, s.data[cluster][i], s.fat, s.refs) == Done(r)
    ensures ClusterSlot(g, s, cluster, i, fuel) ==
              if r.follow != 0 then FollowDir(g, StoreInCluster(g, s, cluster, i, r), r.follow, fuel)
              else Done(StoreInCluster(g, s, cluster, i, r))
  {
  }

  lemma FollowDirStep(g: Geometry, s: Scan, cluster: int, fuel: nat)
    requires WellFormedScan(g, s) && IsValidCluster(g, cluster) && fuel > 0
    ensures ScanCluster(g, s, cluster, 0, fuel - 1).OutOfFuel? ==> FollowDir(g, s, cluster, fuel).OutOfFuel?
    ensures ScanCluster(g, s, cluster, 0, fuel - 1).Done? ==>
              var s1 := ScanCluster(g, s, cluster, 0, fuel - 1).value;
              FollowDir(g, s, cluster, fuel) == FollowDir(g, s1, s1.fat[cluster], fuel - 1)
  {
  }

  /** follow_dir as the program writes it: a loop over the chain, a loop over the slots. */
  method FollowDirectory(g: Geometry, s: Scan, cluster: int, fuel: nat) returns (o: Outcome<Scan>)
    requires WellFormedScan(g, s)
    ensures o == FollowDir(g, s, cluster, fuel)
    decreases fuel, 0
  {
    var cur := s;
    var c := cluster;
    var f: nat := fuel;
    while IsValidCluster(g, c)
      invariant f <= fuel && WellFormedScan(g, cur)
      invariant FollowDir(g, s, cluster, fuel) == FollowDir(g, cur, c, f)
      decreases f
    {
      if f == 0 {
        return OutOfFuel;
      }
      FollowDirStep(g, cur, c, f);
      var scanned := ScanDirCluster(g, cur, c, f - 1);
      if scanned.OutOfFuel? {
        return OutOfFuel;
      }
      cur := scanned.value;
      c := cur.fat[c];
      f := f - 1;
    }
    return Done(cur);
  }

  /** The slot loop of follow_dir over one cluster. */
  method ScanDirCluster(g: Geometry, s: Scan, cluster: nat, fuel: nat) returns (o: Outcome<Scan>)
    requires WellFormedScan(g, s) && cluster < FatEntries
    ensures o == ScanCluster(g, s, cluster, 0, fuel)
    decreases fuel, 1
  {
    var cur := s;
    var i := 0;
    while i < SlotsPerCluster(g)
      invariant i <= SlotsPerCluster(g) && WellFormedScan(g, cur)
      invariant ScanCluster(g, s, cluster, 0, fuel) == ScanCluster(g, cur, cluster, i, fuel)
    {
      ScanClusterStep(g, cur, cluster, i, fuel);
      var ins := InspectEntry(g, cur.data[cluster][i], cur.fat, cur.refs);
      if ins.OutOfFuel? {
        return OutOfFuel;
      }
      var r := ins.value;
      ClusterSlotFollowed(g, cur, cluster, i, fuel, r);
      var next := StoreInCluster(g, cur, cluster, i, r);
      if r.follow != 0 {
        var sub := FollowDirectory(g, next, r.follow, fuel);
        if sub.OutOfFuel? {
          return OutOfFuel;
        }
        next := sub.value;
      }
      cur := next;
      i := i + 1;
    }
    return Done(cur);
  }

  /** The state after writing an inspected root slot back. */
  function StoreInRoot(g: Geometry, s: Scan, i: nat, r: Inspected): (s': Scan)
    requires WellFormedScan(g, s) && i < |s.root|
    requires SlotKept(s.root[i], r.entry)
    requires FatRepairOnly(s.fat, r.fat) && RefsGrow(s.refs, r.refs)
    ensures WellFormedScan(g, s') && Evolves(g, s, s')
  {
    s.(fat := r.fat, refs := r.refs, root := s.root[i := r.entry])
  }

  /** One pass of traverse_root's loop body: inspect root slot `i`, credit and descend. */
  function RootSlot(g: Geometry, s: Scan, i: nat, fuel: nat): (o: Outcome<Scan>)
    requires WellFormedScan(g, s) && i < g.rootDirEnts
    ensures o.Done? ==> WellFormedScan(g, o.value) && Evolves(g, s, o.value)
    ensures o.Done? ==> forall j :: 0 <= j < |s.root| && j != i ==> o.value.root[j] == s.root[j]
  {
    match InspectEntry(g, s.root[i], s.fat, s.refs)
    case OutOfFuel => OutOfFuel
    case Done(r) =>
      var s1 := StoreInRoot(g, s, i, r);
      if IsValidCluster(g, r.follow) then
        var s2 := s1.(refs := s1.refs[r.follow := s1.refs[r.follow] + 1]);
        EvolvesTransitive(g, s, s1, s2);
        match FollowDir(g, s2, r.follow, fuel)
        case OutOfFuel => OutOfFuel
        case Done(s3) => EvolvesTransitive(g, s, s2, s3); Done(s3)
      else Done(s1)
  }

  /** traverse_root from root slot `i` on. */
  function RootFrom(g: Geometry, s: Scan, i: nat, fuel: nat): (o: Outcome<Scan>)
    requires WellFormedScan(g, s) && i <= g.rootDirEnts
    ensures o.Done? ==> WellFormedScan(g, o.value) && Evolves(g, s, o.value)
    decreases g.rootDirEnts - i
  {
    if i == g.rootDirEnts then EvolvesReflexive(g, s); Done(s)
    else match RootSlot(g, s, i, fuel)
      case OutOfFuel => OutOfFuel
      case Done(s1) =>
        match RootFrom(g, s1, i + 1, fuel)
        case OutOfFuel => OutOfFuel
        case Done(s2) => EvolvesTransitive(g, s, s1, s2); Done(s2)
  }

  lemma RootFromStep(g: Geometry, s: Scan, i: nat, fuel: nat)
    requires WellFormedScan(g, s) && i < g.rootDirEnts
    ensures RootSlot(g, s, i, fuel).OutOfFuel? ==> RootFrom(g, s, i, fuel).OutOfFuel?
    ensures RootSlot(g, s, i, fuel).Done? ==>
              RootFrom(g, s, i, fuel) == RootFrom(g, RootSlot(g, s, i, fuel).value, i + 1, fuel)
  {
  }

  lemma RootSlotFollowed(g: Geometry, s: Scan, i: nat, fuel: nat, r: Inspected)
    requires WellFormedScan(g, s) && i < g.rootDirEnts
    requires InspectEntry(g, s.root[i], s.fat, s.refs) == Done(r)
    ensures var s1 := StoreInRoot(g, s, i, r);
            RootSlot(g, s, i, fuel) ==
              if IsValidCluster(g, r.follow)
              then FollowDir(g, s1.(refs := s1.refs[r.follow := s1.refs[r.follow] + 1]), r.follow, fuel)
              else Done(s1)
  {
  }

  /** The body of traverse_root's loop for root slot `i`. */
  method VisitRootSlot(g: Geometry, s: Scan, i: nat, fuel: nat) returns (o: Outcome<Scan>)
    requires WellFormedScan(g, s) && i < g.rootDirEnts
    ensures o == RootSlot(g, s, i, fuel)
  {
    var ins := InspectEntry(g, s.root[i], s.fat, s.refs);
    if ins.OutOfFuel? {
      return OutOfFuel;
    }
    var r := ins.value;
    RootSlotFollowed(g, s, i, fuel, r);
    var cur := StoreInRoot(g, s, i, r);
    if IsValidCluster(g, r.follow) {
      cur := cur.(refs := cur.refs[r.follow := cur.refs[r.follow] + 1]);
      o := FollowDir(g, cur, r.follow, fuel);
    } else {
      o := Done(cur);
    }
  }

  /** traverse_root, with `fuel` bounding each descent. */
  method TraverseRoot(g: Geometry, s: Scan, fuel: nat) returns (o: Outcome<Scan>)
    requires WellFormedScan(g, s)
    ensures o == RootFrom(g, s, 0, fuel)
  {
    var cur := s;
    var i := 0;
    while i < g.rootDirEnts
      invariant 0 <= i <= g.rootDirEnts
      invariant WellFormedScan(g, cur)
      invariant RootFrom(g, s, 0, fuel) == RootFrom(g, cur, i, fuel)
    {
      RootFromStep(g, cur, i, fuel);
      var step := VisitRootSlot(g, cur, i, fuel);
      if step.OutOfFuel? {
        return OutOfFuel;
      }
      cur := step.value;
      i := i + 1;
    }
    return Done(cur);
  }

  /** No slot anywhere on the volume is a regular file. */
  predicate NoFiles(g: Geometry, s: Scan)
    requires WellFormedScan(g, s)
  {
    && (forall i :: 0 <= i < |s.root| ==> Classify(s.root[i]) != RegularFile)
    && forall c, j :: 0 <= c < |s.data| && 0 <= j < |s.data[c]| ==> Classify(s.data[c][j]) != RegularFile
  }

  /** 1 when root slot `e` is a visible subdirectory starting at the valid cluster `x`. */
  function SlotCredit(g: Geometry, e: Entry, x: nat): nat
    requires WellFormedEntry(e)
  {
    if FollowOf(Classify(e)) == x && IsValidCluster(g, x) then 1 else 0
  }

  /** Root slots from `i` on that are visible subdirectories starting at the valid cluster `x`. */
  function RootCredits(g: Geometry, root: seq<Entry>, i: nat, x: nat): nat
    requires WellFormedSlots(root) && i <= |root|
    decreases |root| - i
  {
    if i == |root| then 0 else SlotCredit(g, root[i], x) + RootCredits(g, root, i + 1, x)
  }

  lemma {:induction false} FollowDirNoFiles(g: Geometry, s: Scan, cluster: int, fuel: nat)
    requires WellFormedScan(g, s) && NoFiles(g, s)
    requires FollowDir(g, s, cluster, fuel).Done?
    ensures FollowDir(g, s, cluster, fuel).value == s
    decreases fuel, 0
  {
    if IsValidCluster(g, cluster) {
      ScanClusterNoFiles(g, s, cluster, 0, fuel - 1);
      FollowDirNoFiles(g, s, s.fat[cluster], fuel - 1);
    }
  }

  lemma {:induction false} ScanClusterNoFiles(g: Geometry, s: Scan, cluster: nat, i: nat, fuel: nat)
    requires WellFormedScan(g, s) && NoFiles(g, s) && cluster < FatEntries && i <= SlotsPerCluster(g)
    requires ScanCluster(g, s, cluster, i, fuel).Done?
    ensures ScanCluster(g, s, cluster, i, fuel).value == s
    decreases fuel, 1, SlotsPerCluster(g) - i, 1
  {
    if i < SlotsPerCluster(g) {
      ClusterSlotNoFiles(g, s, cluster, i, fuel);
      ScanClusterNoFiles(g, s, cluster, i + 1, fuel);
    }
  }

  lemma {:induction false} ClusterSlotNoFiles(g: Geometry, s: Scan, cluster: nat, i: nat, fuel: nat)
    requires WellFormedScan(g, s) && NoFiles(g, s) && cluster < FatEntries && i < SlotsPerCluster(g)
    requires ClusterSlot(g, s, cluster, i, fuel).Done?
    ensures ClusterSlot(g, s, cluster, i, fuel).value == s
    decreases fuel, 1, SlotsPerCluster(g) - i, 0
  {
    var e := s.data[cluster][i];
    assert Classify(e) != RegularFile;
    var r := InspectEntry(g, e, s.fat, s.refs).value;
    assert r.entry == e && r.fat == s.fat && r.refs == s.refs;
    assert s.data[cluster][i := e] == s.data[cluster];
    assert s.data[cluster := s.data[cluster]] == s.data;
    assert StoreInCluster(g, s, cluster, i, r) == s;
    if r.follow != 0 {
      FollowDirNoFiles(g, s, r.follow, fuel);
    }
  }

  /** A slot that is not a regular file is inspected without any change. */
  lemma NonFileInspected(g: Geometry, e: Entry, fat: seq<Link>, refs: seq<nat>)
    requires WellFormedEntry(e) && |fat| == FatEntries && |refs| >= g.clusterLimit
    requires Classify(e) != RegularFile
    ensures InspectEntry(g, e, fat, refs) == Done(Inspected(FollowOf(Classify(e)), e, fat, refs, []))
  {
  }

  /** Storing a root slot back unchanged leaves the state as it was. */
  lemma StoreInRootSame(g: Geometry, s: Scan, i: nat)
    requires WellFormedScan(g, s) && i < |s.root|
    requires Classify(s.root[i]) != RegularFile
    ensures StoreInRoot(g, s, i, Inspected(FollowOf(Classify(s.root[i])), s.root[i], s.fat, s.refs, [])) == s
  {
    assert s.root[i := s.root[i]] == s.root;
  }

  /** With no files, one root slot only credits the subdirectory it names. */
  lemma NoFilesRootSlot(g: Geometry, s: Scan, i: nat, fuel: nat)
    requires WellFormedScan(g, s) && NoFiles(g, s) && i < g.rootDirEnts
    requires RootSlot(g, s, i, fuel).Done?
    ensures var f := FollowOf(Classify(s.root[i]));
            RootSlot(g, s, i, fuel).value ==
              if IsValidCluster(g, f) then s.(refs := s.refs[f := s.refs[f] + 1]) else s
  {
    var e := s.root[i];
    var f := FollowOf(Classify(e));
    NonFileInspected(g, e, s.fat, s.refs);
    StoreInRootSame(g, s, i);
    RootSlotFollowed(g, s, i, fuel, Inspected(f, e, s.fat, s.refs, []));
    if IsValidCluster(g, f) {
      var s2 := s.(refs := s.refs[f := s.refs[f] + 1]);
      NoFilesKept(g, s, s2);
      FollowDirNoFiles(g, s2, f, fuel);
    }
  }

  /** The same slots, so still no files. */
  lemma NoFilesKept(g: Geometry, s: Scan, s': Scan)
    requires WellFormedScan(g, s) && WellFormedScan(g, s') && NoFiles(g, s)
    requires s'.root == s.root && s'.data == s.data
    ensures NoFiles(g, s')
  {
  }

  /** One turn of the root walk on a volume without files, as the induction below consumes it. */
  lemma NoFilesRootStep(g: Geometry, s: Scan, i: nat, fuel: nat)
    requires WellFormedScan(g, s) && NoFiles(g, s) && i < g.rootDirEnts
    requires RootFrom(g, s, i, fuel).Done?
    ensures RootSlot(g, s, i, fuel).Done?
    ensures var s2 := RootSlot(g, s, i, fuel).value;
            && WellFormedScan(g, s2) && NoFiles(g, s2)
            && RootFrom(g, s, i, fuel) == RootFrom(g, s2, i + 1, fuel)
            && s2.fat == s.fat && s2.root == s.root && s2.data == s.data
            && |s2.refs| == |s.refs|
            && forall x :: 0 <= x < |s.refs| ==>
                 s2.refs[x] == s.refs[x] + SlotCredit(g, s.root[i], x)
  {
    RootFromStep(g, s, i, fuel);
    NoFilesRootSlot(g, s, i, fuel);
    NoFilesKept(g, s, RootSlot(g, s, i, fuel).value);
  }

  /**
    On a volume without regular files the walk changes nothing but the
    reference table, and a cluster's count grows by exactly the number of
    root slots that are visible subdirectories starting there: subdirectories
    found below the root are never credited.
   */
  lemma {:induction false} NoFilesCreditsRootDirsOnly(g: Geometry, s: Scan, i: nat, fuel: nat)
    requires WellFormedScan(g, s) && NoFiles(g, s) && i <= g.rootDirEnts
    requires RootFrom(g, s, i, fuel).Done?
    ensures var t := RootFrom(g, s, i, fuel).value;
            && t.fat == s.fat && t.root == s.root && t.data == s.data
            && forall x :: 0 <= x < |s.refs| ==> t.refs[x] == s.refs[x] + RootCredits(g, s.root, i, x)
    decreases g.rootDirEnts - i
  {
    if i < g.rootDirEnts {
      NoFilesRootStep(g, s, i, fuel);
      var s2 := RootSlot(g, s, i, fuel).value;
      NoFilesCreditsRootDirsOnly(g, s2, i + 1, fuel);
      var t := RootFrom(g, s2, i + 1, fuel).value;
      forall x | 0 <= x < |s.refs|
        ensures t.refs[x] == s.refs[x] + RootCredits(g, s.root, i, x)
      {
        assert t.refs[x] == s2.refs[x] + RootCredits(g, s.root, i + 1, x);
      }
    } else {
      assert RootFrom(g, s, i, fuel) == Done(s);
    }
  }

  /**
    One root slot: each count ends between its old value plus the slot's
    own credit and max(old, 1) plus that credit.
   */
  lemma RootSlotCounts(g: Geometry, s: Scan, i: nat, fuel: nat)
    requires WellFormedScan(g, s) && i < g.rootDirEnts
    requires RootSlot(g, s, i, fuel).Done?
    ensures var s' := RootSlot(g, s, i, fuel).value;
            forall x :: 0 <= x < |s.refs| ==>
              s.refs[x] + SlotCredit(g, s.root[i], x) <= s'.refs[x] <= Max(s.refs[x], 1) + SlotCredit(g, s.root[i], x)
  {
    var r := InspectEntry(g, s.root[i], s.fat, s.refs).value;
    RootSlotFollowed(g, s, i, fuel, r);
  }

  lemma {:induction false} RootCreditsFrame(g: Geometry, a: seq<Entry>, b: seq<Entry>, i: nat, x: nat)
    requires WellFormedSlots(a) && WellFormedSlots(b) && |a| == |b| && i <= |a|
    requires forall j :: i <= j < |a| ==> a[j] == b[j]
    ensures RootCredits(g, a, i, x) == RootCredits(g, b, i, x)
    decreases |a| - i
  {
    if i < |a| {
      RootCreditsFrame(g, a, b, i + 1, x);
    }
  }

  /**
    Each count of `refs'` lies between its count in `refs` plus the credits
    of the root slots from `i` on naming it, and max(that count, 1) plus
    the same credits.
   */
  predicate CountsBetween(g: Geometry, refs: seq<nat>, root: seq<Entry>, i: nat, refs': seq<nat>)
    requires WellFormedSlots(root) && i <= |root|
  {
    && |refs'| == |refs|
    && forall x :: 0 <= x < |refs| ==>
         refs[x] + RootCredits(g, root, i, x) <= refs'[x] <= Max(refs[x], 1) + RootCredits(g, root, i, x)
  }

  /** Bounds for slot `i` and for the slots after it add up to bounds from slot `i` on. */
  lemma CountsCompose(g: Geometry, refs: seq<nat>, refs2: seq<nat>, refs3: seq<nat>, root: seq<Entry>, root2: seq<Entry>, i: nat)
    requires WellFormedSlots(root) && WellFormedSlots(root2) && |root2| == |root| && i < |root|
    requires forall j :: i < j < |root| ==> root2[j] == root[j]
    requires |refs2| == |refs|
    requires forall x :: 0 <= x < |refs| ==>
               refs[x] + SlotCredit(g, root[i], x) <= refs2[x] <= Max(refs[x], 1) + SlotCredit(g, root[i], x)
    requires CountsBetween(g, refs2, root2, i + 1, refs3)
    ensures CountsBetween(g, refs, root, i, refs3)
  {
    forall x | 0 <= x < |refs|
      ensures refs[x] + RootCredits(g, root, i, x) <= refs3[x] <= Max(refs[x], 1) + RootCredits(g, root, i, x)
    {
      RootCreditsFrame(g, root, root2, i + 1, x);
    }
  }

  /**
    The walk from root slot `i`, on any volume: each count ends at least at
    its old value plus the credits of the root slots naming it as a
    subdirectory, and at most at max(old, 1) plus those credits. Nested
    subdirectories add nothing, and all the file chains through a cluster
    add at most one claim between them.
   */
  lemma {:induction false} RootFromCounts(g: Geometry, s: Scan, i: nat, fuel: nat)
    requires WellFormedScan(g, s) && i <= g.rootDirEnts
    requires RootFrom(g, s, i, fuel).Done?
    ensures CountsBetween(g, s.refs, s.root, i, RootFrom(g, s, i, fuel).value.refs)
    decreases g.rootDirEnts - i
  {
    if i < g.rootDirEnts {
      RootFromStep(g, s, i, fuel);
      RootSlotCounts(g, s, i, fuel);
      var s2 := RootSlot(g, s, i, fuel).value;
      RootFromCounts(g, s2, i + 1, fuel);
      CountsCompose(g, s.refs, s2.refs, RootFrom(g, s2, i + 1, fuel).value.refs, s.root, s2.root, i);
    } else {
      RootFromEnd(g, s, fuel);
    }
  }

  lemma RootFromEnd(g: Geometry, s: Scan, fuel: nat)
    requires WellFormedScan(g, s)
    ensures RootFrom(g, s, g.rootDirEnts, fuel) == Done(s)
    ensures CountsBetween(g, s.refs, s.root, g.rootDirEnts, s.refs)
  {
  }
}
