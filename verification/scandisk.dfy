/**
  One run of the checker: a zeroed reference table, the walk from the root
  directory, then the orphan sweep over the counts the walk left.
 */
module Scandisk {
  import opened Fat
  import opened Dirent
  import opened Walker
  import opened Orphans
  import opened Layout

  /**
    The length the program gives its reference table: the sector count less
    33, whereas the sweep reads the count of every cluster from 2 to
    sectors - 1.
   */
  function RefsAsAllocated(g: Geometry): int {
    g.sectors - 33
  }

  /** The table the program allocates cannot serve the sweep it runs. */
  lemma AllocatedRefsTooShort(g: Geometry, refs: seq<nat>, w: Sweep)
    requires g.sectors >= 33 && |refs| == RefsAsAllocated(g)
    ensures !SweepReady(g, refs, w)
  {
  }

  /** A standard 1.44 MB floppy: 2880 sectors of 512 bytes, one per cluster, 224 root slots. */
  const Floppy: Geometry := Geometry(512, 1, 224, 2880, 2849)

  /**
    On that floppy the table has 2847 entries: the sweep reads entries up to
    2879, and even the walk may credit clusters 2847 and 2848.
   */
  lemma FloppyRefsOverrun()
    ensures RefsAsAllocated(Floppy) == 2847
    ensures forall refs: seq<nat>, w :: |refs| == 2847 ==> !SweepReady(Floppy, refs, w)
    ensures IsValidCluster(Floppy, 2848) && 2848 >= RefsAsAllocated(Floppy)
  {
  }

  /** A table long enough for the walk (every valid cluster) and the sweep (every swept index). */
  function ZeroRefs(g: Geometry): (refs: seq<nat>)
    ensures |refs| >= g.clusterLimit && |refs| >= g.sectors
    ensures forall x :: 0 <= x < |refs| ==> refs[x] == 0
  {
    seq(Max(g.clusterLimit, g.sectors), _ => 0)
  }

  /** What a finished run leaves: the repaired volume, the final counts, the recovered clusters. */
  datatype Report = Report(scan: Scan, found: seq<Link>)

  /**
    Every slot of `area'` is its counterpart in `area` as inspection may
    leave it, a cleared slot, or the FOUND entry of a recovered cluster.
   */
  predicate Repaired(area: seq<Entry>, area': seq<Entry>, found: seq<Link>) {
    && WellFormedSlots(area)
    && |area'| == |area|
    && forall j :: 0 <= j < |area| ==>
         SlotKept(area[j], area'[j]) || area'[j] == ZeroEntry || area'[j] in FostersOf(found)
  }

  lemma AppendKept(a: seq<Entry>, b: seq<Entry>, a': seq<Entry>, b': seq<Entry>)
    requires WellFormedSlots(a) && WellFormedSlots(b) && SlotsKept(a, a') && SlotsKept(b, b')
    ensures WellFormedSlots(a + b) && SlotsKept(a + b, a' + b')
  {
    forall j | 0 <= j < |a + b| ensures WellFormedEntry((a + b)[j]) && SlotKept((a + b)[j], (a' + b')[j]) {
      if j >= |a| {
        assert (a + b)[j] == b[j - |a|] && (a' + b')[j] == b'[j - |a|];
      }
    }
  }

  lemma {:induction false} ConcatKept(ds: seq<seq<Entry>>, ds': seq<seq<Entry>>)
    requires |ds'| == |ds|
    requires forall k :: 0 <= k < |ds| ==> WellFormedSlots(ds[k]) && SlotsKept(ds[k], ds'[k])
    ensures WellFormedSlots(Concat(ds)) && SlotsKept(Concat(ds), Concat(ds'))
  {
    if |ds| > 0 {
      ConcatKept(ds[1..], ds'[1..]);
      AppendKept(ds[0], Concat(ds[1..]), ds'[0], Concat(ds'[1..]));
    }
  }

  /** A walk changes the directory area only as inspection may. */
  lemma DirAreaKept(g: Geometry, s: Scan, t: Scan)
    requires WellFormedScan(g, s) && WellFormedScan(g, t) && Evolves(g, s, t)
    ensures WellFormedSlots(DirArea(g, s.root, s.data))
    ensures SlotsKept(DirArea(g, s.root, s.data), DirArea(g, t.root, t.data))
  {
    var hi := DataEnd(g);
    var ds := s.data[2..hi];
    var ds' := t.data[2..hi];
    assert forall k :: 0 <= k < |ds| ==> ds[k] == s.data[k + 2] && ds'[k] == t.data[k + 2];
    ConcatKept(ds, ds');
    AppendKept(s.root, Concat(ds), t.root, Concat(ds'));
  }

  /** Inspection's changes followed by a sweep's leave a repaired area. */
  lemma KeptThenSwept(area: seq<Entry>, mid: seq<Entry>, area': seq<Entry>, found: seq<Link>)
    requires WellFormedSlots(area) && SlotsKept(area, mid) && SweptArea(mid, area', found)
    ensures Repaired(area, area', found)
  {
    forall j | 0 <= j < |area|
      ensures SlotKept(area[j], area'[j]) || area'[j] == ZeroEntry || area'[j] in FostersOf(found)
    {
      assert SlotKept(area[j], mid[j]);
    }
  }

  /** The volume as the checker starts on it, with all counts zero. */
  function Start(g: Geometry, fat: seq<Link>, root: seq<Entry>, data: seq<seq<Entry>>): Scan {
    Scan(fat, ZeroRefs(g), root, data)
  }

  /**
    The whole run. OutOfFuel: the walk did not finish within `fuel`.
    Done(None): the sweep ran out of directory area for a recovered file.
    The sweep works on the directory area (the root region and the data
    clusters after it), which is then stored back into the volume.
   */
  function Run(g: Geometry, fat: seq<Link>, root: seq<Entry>, data: seq<seq<Entry>>, fuel: nat)
    : (o: Outcome<Option<Report>>)
    requires WellFormedScan(g, Start(g, fat, root, data)) && g.sectors <= FatEntries
    ensures o.Done? && o.value.Some? ==>
              var r := o.value.value;
              && WellFormedScan(g, r.scan)
              && FatRepairOnly(fat, r.scan.fat)
              && |r.scan.data| == |data|
              && Repaired(DirArea(g, root, data), DirArea(g, r.scan.root, r.scan.data), r.found)
              && forall k :: 0 <= k < |r.found| ==> 2 <= r.found[k] < g.sectors
  {
    var s := Start(g, fat, root, data);
    match RootFrom(g, s, 0, fuel)
    case OutOfFuel => OutOfFuel
    case Done(t) =>
      DirAreaShape(g, t);
      match RecoverOrphans(g, t.fat, t.refs, DirArea(g, t.root, t.data))
      case None => Done(None)
      case Some(v) =>
        OrphansRecovered(g, t.fat, t.refs, DirArea(g, t.root, t.data));
        DirAreaKept(g, s, t);
        OrphansKeep(g, t.fat, t.refs, DirArea(g, t.root, t.data));
        KeptThenSwept(DirArea(g, root, data), DirArea(g, t.root, t.data), v.area, v.found);
        Done(Some(Stored(g, t, v)))
  }

  /** The program's main sequence: traverse_root, then update_orphans. */
  method ScanDisk(g: Geometry, fat: seq<Link>, root: seq<Entry>, data: seq<seq<Entry>>, fuel: nat)
    returns (o: Outcome<Option<Report>>)
    requires WellFormedScan(g, Start(g, fat, root, data)) && g.sectors <= FatEntries
    ensures o == Run(g, fat, root, data, fuel)
  {
    var walked := TraverseRoot(g, Start(g, fat, root, data), fuel);
    if walked.OutOfFuel? {
      return OutOfFuel;
    }
    var t := walked.value;
    DirAreaShape(g, t);
    var swept := UpdateOrphans(g, t.fat, t.refs, DirArea(g, t.root, t.data));
    if swept.None? {
      return Done(None);
    }
    var v := swept.value;
    return Done(Some(Stored(g, t, v)));
  }

  /**
    After a run, a cluster other than 0xFF7 is recovered exactly when the
    walk left it unclaimed while its FAT entry was in use and not marked
    bad, and each recovered cluster's FAT entry is then end-of-chain.
   */
  lemma RunRecovers(g: Geometry, fat: seq<Link>, root: seq<Entry>, data: seq<seq<Entry>>, fuel: nat)
    requires WellFormedScan(g, Start(g, fat, root, data)) && g.sectors <= FatEntries
    requires Run(g, fat, root, data, fuel).Done? && Run(g, fat, root, data, fuel).value.Some?
    ensures var t := RootFrom(g, Start(g, fat, root, data), 0, fuel).value;
            var r := Run(g, fat, root, data, fuel).value.value;
            && r.scan.refs == t.refs
            && (forall x :: 2 <= x < g.sectors && x != Bad ==>
                  (x in r.found <==> t.refs[x] == 0 && t.fat[x] != Free && t.fat[x] != Bad))
            && forall x :: 0 <= x < FatEntries && x != Bad && x in r.found ==> r.scan.fat[x] == EndOfChain
  {
    var t := RootFrom(g, Start(g, fat, root, data), 0, fuel).value;
    DirAreaShape(g, t);
    OrphansRecovered(g, t.fat, t.refs, DirArea(g, t.root, t.data));
  }

  /** The report a finished sweep leaves: its area stored back into the walked volume, with its FAT. */
  function Stored(g: Geometry, t: Scan, v: Sweep): (r: Report)
    requires WellFormedScan(g, t) && WellFormedSlots(v.area) && |v.fat| == FatEntries
    requires |v.area| == |t.root| + (DataEnd(g) - 2) * SlotsPerCluster(g)
    ensures WellFormedScan(g, r.scan) && r.scan.refs == t.refs && r.found == v.found
    ensures DirArea(g, r.scan.root, r.scan.data) == v.area
  {
    Report(StoreArea(g, t, v.area).(fat := v.fat), v.found)
  }

  /** The n-th recovered cluster has its entry FOUND<n>.DAT somewhere in `area`. */
  predicate Listed(area: seq<Entry>, found: seq<Link>) {
    forall k :: 0 <= k < |found| ==> FosterEntry(k + 1, found[k]) in area
  }

  /**
    After a run, every recovered cluster is listed in the directory area of
    the repaired volume: in the root region, or in a data cluster when the
    root region was full.
   */
  lemma RunFosters(g: Geometry, fat: seq<Link>, root: seq<Entry>, data: seq<seq<Entry>>, fuel: nat)
    requires WellFormedScan(g, Start(g, fat, root, data)) && g.sectors <= FatEntries
    requires Run(g, fat, root, data, fuel).Done? && Run(g, fat, root, data, fuel).value.Some?
    ensures var r := Run(g, fat, root, data, fuel).value.value;
            Listed(DirArea(g, r.scan.root, r.scan.data), r.found)
  {
    var t, v := RunParts(g, fat, root, data, fuel);
    StoredListed(g, t, v);
  }

  lemma StoredListed(g: Geometry, t: Scan, v: Sweep)
    requires WellFormedScan(g, t) && |t.refs| >= g.sectors && g.sectors <= FatEntries
    requires |DirArea(g, t.root, t.data)| == |t.root| + (DataEnd(g) - 2) * SlotsPerCluster(g)
    requires SweepReady(g, t.refs, Sweep(t.fat, DirArea(g, t.root, t.data), []))
    requires RecoverOrphans(g, t.fat, t.refs, DirArea(g, t.root, t.data)) == Some(v)
    ensures Listed(DirArea(g, Stored(g, t, v).scan.root, Stored(g, t, v).scan.data), Stored(g, t, v).found)
  {
    OrphansFostered(g, t.fat, t.refs, DirArea(g, t.root, t.data));
    assert Listed(v.area, v.found);
  }

  /**
    When every root slot but the last is in use and the last was never
    used, a new entry goes into the last root slot and create_dirent's
    clearing of the next slot lands on the first slot of data cluster 2;
    the rest of that cluster and the other root slots stay.
   */
  lemma RootSpillsIntoData(g: Geometry, t: Scan, e: Entry)
    requires WellFormedScan(g, t) && WellFormedEntry(e)
    requires 1 <= |t.root| && DataEnd(g) > 2 && SlotsPerCluster(g) >= 1
    requires forall j :: 0 <= j < |t.root| - 1 ==> !IsFreeSlot(t.root[j])
    requires t.root[|t.root| - 1].name[0] == SlotEmpty
    ensures |DirArea(g, t.root, t.data)| == |t.root| + (DataEnd(g) - 2) * SlotsPerCluster(g)
    ensures WellFormedSlots(DirArea(g, t.root, t.data))
    ensures PlaceEntry(DirArea(g, t.root, t.data), e).Some?
    ensures var a := PlaceEntry(DirArea(g, t.root, t.data), e).value;
            var s' := StoreArea(g, t, a);
            && s'.root == t.root[|t.root| - 1 := e]
            && s'.data[2][0] == ZeroEntry
            && forall j :: 1 <= j < SlotsPerCluster(g) ==> s'.data[2][j] == t.data[2][j]
  {
    var n := |t.root|;
    DirAreaShape(g, t);
    var area := DirArea(g, t.root, t.data);
    AreaAfterRoot(g, t, 0);
    assert forall j :: 0 <= j < n ==> area[j] == t.root[j];
    assert FirstFreeSlot(area, 0) == n - 1;
    var a := PlaceEntry(area, e).value;
    var s' := StoreArea(g, t, a);
    assert DirArea(g, s'.root, s'.data) == a;
    assert s'.root == a[..n];
    assert s'.root == t.root[n - 1 := e];
    AreaAfterRoot(g, s', 0);
    forall j | 1 <= j < SlotsPerCluster(g) ensures s'.data[2][j] == t.data[2][j] {
      AreaAfterRoot(g, s', j);
      AreaAfterRoot(g, t, j);
    }
  }

  /** A finished run is the walked volume with the swept directory area stored back. */
  lemma RunParts(g: Geometry, fat: seq<Link>, root: seq<Entry>, data: seq<seq<Entry>>, fuel: nat)
    returns (t: Scan, v: Sweep)
    requires WellFormedScan(g, Start(g, fat, root, data)) && g.sectors <= FatEntries
    requires Run(g, fat, root, data, fuel).Done? && Run(g, fat, root, data, fuel).value.Some?
    ensures RootFrom(g, Start(g, fat, root, data), 0, fuel) == Done(t)
    ensures WellFormedScan(g, t) && |t.refs| >= g.sectors
    ensures |DirArea(g, t.root, t.data)| == |t.root| + (DataEnd(g) - 2) * SlotsPerCluster(g)
    ensures SweepReady(g, t.refs, Sweep(t.fat, DirArea(g, t.root, t.data), []))
    ensures RecoverOrphans(g, t.fat, t.refs, DirArea(g, t.root, t.data)) == Some(v)
    ensures Run(g, fat, root, data, fuel).value.value == Stored(g, t, v)
  {
    t := RootFrom(g, Start(g, fat, root, data), 0, fuel).value;
    DirAreaShape(g, t);
    v := RecoverOrphans(g, t.fat, t.refs, DirArea(g, t.root, t.data)).value;
  }
}
