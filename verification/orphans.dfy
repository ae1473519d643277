/**
  Recovering orphans. After the walk, every cluster with no claimant but a
  non-free FAT entry is an orphan: an orphan marked bad is dropped (by a
  write that frees FAT entry 0xFF7, whatever the cluster), any other orphan
  becomes a one-cluster file FOUND<n>.DAT in the root directory and its FAT
  entry becomes end-of-chain.
 */
module Orphans {
  import opened Fat
  import opened Dirent
  import opened Names

  /** A slot create_dirent may reuse: never used, or deleted. */
  predicate IsFreeSlot(e: Entry)
    requires WellFormedEntry(e)
  {
    e.name[0] == SlotEmpty || e.name[0] == SlotDeleted
  }

  /** Index of the first free slot at or after `i`; `|area|` when there is none. */
  function FirstFreeSlot(area: seq<Entry>, i: nat): (k: nat)
    requires WellFormedSlots(area) && i <= |area|
    ensures i <= k <= |area|
    ensures k < |area| ==> IsFreeSlot(area[k])
    ensures forall j :: i <= j < k ==> !IsFreeSlot(area[j])
    decreases |area| - i
  {
    if i == |area| || IsFreeSlot(area[i]) then i else FirstFreeSlot(area, i + 1)
  }

  /**
    The slot search of create_dirent. It starts at the first root slot and
    runs on through the directory area: the root region, then the data
    clusters laid out after it. The first free slot receives `e`; if that
    slot had never been used, the slot after it is cleared so that it still
    ends the directory. None when the area has no free slot, or when the
    clearing would fall past its last slot: either way the program would
    write past the last data cluster.
   */
  function PlaceEntry(area: seq<Entry>, e: Entry): (r: Option<seq<Entry>>)
    requires WellFormedSlots(area) && WellFormedEntry(e)
    ensures var k := FirstFreeSlot(area, 0);
            r.None? <==> (k == |area| || (area[k].name[0] == SlotEmpty && k + 1 == |area|))
    ensures r.Some? ==>
              var k := FirstFreeSlot(area, 0);
              var cleared := area[k].name[0] == SlotEmpty;
              && |r.value| == |area| && WellFormedSlots(r.value)
              && r.value[k] == e
              && (cleared ==> r.value[k + 1] == ZeroEntry)
              && forall j :: 0 <= j < |area| && j != k && !(cleared && j == k + 1) ==> r.value[j] == area[j]
  {
    var k := FirstFreeSlot(area, 0);
    if k == |area| then None
    else if area[k].name[0] == SlotEmpty then
      if k + 1 == |area| then None
      else Some(area[k := e][k + 1 := ZeroEntry])
    else Some(area[k := e])
  }

  /** create_dirent: the entry write_dirent builds from the file name, placed in the directory area. */
  function CreateDirent(area: seq<Entry>, filename: seq<byte>, start: u16, size: u32): (r: Option<seq<Entry>>)
    requires WellFormedSlots(area) && IsCString(filename)
    ensures var k := FirstFreeSlot(area, 0);
            r.None? <==> (k == |area| || (area[k].name[0] == SlotEmpty && k + 1 == |area|))
    ensures r.Some? ==>
              var k := FirstFreeSlot(area, 0);
              var cleared := area[k].name[0] == SlotEmpty;
              && |r.value| == |area| && r.value[..k] == area[..k]
              && r.value[k] == WriteDirent(filename, start, size)
              && r.value[k].start == start && r.value[k].size == size
              && (cleared ==> r.value[k + 1] == ZeroEntry)
              && forall j :: 0 <= j < |area| && j != k && !(cleared && j == k + 1) ==> r.value[j] == area[j]
  {
    PlaceEntry(area, WriteDirent(filename, start, size))
  }

  /**
    The new entry lands at the first free slot, every slot before it is
    untouched, and the next free slot is strictly later: successive calls
    fill the area in order. With a never-used slot, the cleared slot right
    after the new entry is the next one found.
   */
  lemma PlaceAdvances(area: seq<Entry>, e: Entry)
    requires WellFormedSlots(area) && WellFormedEntry(e) && !IsFreeSlot(e)
    requires PlaceEntry(area, e).Some?
    ensures var k := FirstFreeSlot(area, 0);
            var r := PlaceEntry(area, e).value;
            && r[..k] == area[..k]
            && FirstFreeSlot(r, 0) > k
            && (area[k].name[0] == SlotEmpty ==> FirstFreeSlot(r, 0) == k + 1)
  {
    var k := FirstFreeSlot(area, 0);
    var r := PlaceEntry(area, e).value;
    assert forall j :: 0 <= j <= k ==> !IsFreeSlot(r[j]);
    if area[k].name[0] == SlotEmpty {
      assert IsFreeSlot(r[k + 1]);
    }
  }

  /** The recorded size of a recovered file: the cluster counter is never raised. */
  const OrphanClusters: nat := 0
  const OrphanSize: u32 := OrphanClusters * ClusterBytes

  /**
    The entry update_orphans has create_dirent write for its `n`-th
    recovered cluster `c`: FOUND<n> cut or padded to 8 bytes, DAT, size 0.
   */
  function FosterEntry(n: nat, c: Link): (e: Entry)
    ensures WellFormedEntry(e) && e.start == c && e.size == OrphanSize && e.attr == AttrNormal
    ensures e.name[..5] == FoundUpper && e.ext == DatUpper
    ensures Classify(e) == RegularFile
  {
    var e := Entry(Field(FoundUpper + Decimal(n), 8, Space), DatUpper, AttrNormal, c, OrphanSize);
    assert e.name[0] == 0x46;
    NormalEntryIsFile(e);
    e
  }

  /** It is exactly what write_dirent builds from "found<n>.dat". */
  lemma FosterEntryWritten(n: nat, c: Link)
    ensures IsCString(OrphanName(n))
    ensures WriteDirent(OrphanName(n), c, OrphanSize) == FosterEntry(n, c)
  {
    WriteOrphanDirent(n, c, OrphanSize);
  }

  /** The create_dirent call of update_orphans is the placement of that entry. */
  lemma CreateFoster(area: seq<Entry>, n: nat, c: Link)
    requires WellFormedSlots(area)
    ensures IsCString(OrphanName(n))
    ensures CreateDirent(area, OrphanName(n), c, OrphanSize) == PlaceEntry(area, FosterEntry(n, c))
  {
    FosterEntryWritten(n, c);
  }

  /** A cluster nothing claims although the FAT marks it in use. */
  predicate IsOrphan(fat: seq<Link>, refs: seq<nat>, x: nat)
    requires x < |fat| && x < |refs|
  {
    refs[x] == 0 && fat[x] != Free
  }

  /** What the sweep carries: the FAT, the directory area and the recovered clusters in order. */
  datatype Sweep = Sweep(fat: seq<Link>, area: seq<Entry>, found: seq<Link>)

  /** The volume shape the sweep needs: the whole FAT and one count per swept cluster. */
  predicate SweepReady(g: Geometry, refs: seq<nat>, w: Sweep) {
    |w.fat| == FatEntries && g.sectors <= FatEntries && |refs| >= g.sectors && WellFormedSlots(w.area)
  }

  /** Cluster `i` is recovered as a file: an orphan not marked bad. */
  predicate Recoverable(fat: seq<Link>, refs: seq<nat>, i: nat)
    requires i < |fat| && i < |refs|
  {
    IsOrphan(fat, refs, i) && fat[i] != Bad
  }

  /** One turn of the sweep's loop, for cluster `i`. */
  function SweepAt(g: Geometry, refs: seq<nat>, w: Sweep, i: nat): (o: Option<Sweep>)
    requires SweepReady(g, refs, w) && i < g.sectors
    ensures o.Some? ==> SweepReady(g, refs, o.value) && |o.value.area| == |w.area|
    ensures o.Some? ==> FatRepairOnly(w.fat, o.value.fat)
  {
    if !IsOrphan(w.fat, refs, i) then Some(w)
    else if w.fat[i] == Bad then Some(w.(fat := w.fat[Bad := Free]))
    else
      match PlaceEntry(w.area, FosterEntry(|w.found| + 1, i))
      case None => None
      case Some(area') => Some(Sweep(w.fat[i := EndOfChain], area', w.found + [i]))
  }

  /** One turn appends the cluster to the list exactly when it is recovered. */
  lemma SweepAtFound(g: Geometry, refs: seq<nat>, w: Sweep, i: nat)
    requires SweepReady(g, refs, w) && i < g.sectors && SweepAt(g, refs, w, i).Some?
    ensures SweepAt(g, refs, w, i).value.found == if Recoverable(w.fat, refs, i) then w.found + [i] else w.found
  {
  }

  /** One turn's FAT writes: end-of-chain for a recovered cluster, entry 0xFF7 freed for a bad orphan. */
  lemma SweepAtFat(g: Geometry, refs: seq<nat>, w: Sweep, i: nat)
    requires SweepReady(g, refs, w) && i < g.sectors && SweepAt(g, refs, w, i).Some?
    ensures var f := SweepAt(g, refs, w, i).value.fat;
            && (forall x :: 0 <= x < FatEntries && x != Bad ==>
                  f[x] == if x == i && Recoverable(w.fat, refs, i) then EndOfChain else w.fat[x])
            && (i != Bad ==> f[Bad] == if IsOrphan(w.fat, refs, i) && w.fat[i] == Bad then Free else w.fat[Bad])
  {
  }

  /** One turn's writes to the directory area: the placement of the FOUND entry for a recovered cluster, else none. */
  lemma SweepAtRoot(g: Geometry, refs: seq<nat>, w: Sweep, i: nat)
    requires SweepReady(g, refs, w) && i < g.sectors && SweepAt(g, refs, w, i).Some?
    ensures var r := SweepAt(g, refs, w, i).value.area;
            if Recoverable(w.fat, refs, i) then Some(r) == PlaceEntry(w.area, FosterEntry(|w.found| + 1, i))
            else r == w.area
  {
  }

  /** The sweep's loop from cluster `i` on. */
  function SweepFrom(g: Geometry, refs: seq<nat>, w: Sweep, i: nat): (o: Option<Sweep>)
    requires SweepReady(g, refs, w)
    ensures o.Some? ==> SweepReady(g, refs, o.value) && |o.value.area| == |w.area|
    ensures o.Some? ==> FatRepairOnly(w.fat, o.value.fat)
    decreases g.sectors - i
  {
    if i >= g.sectors then Some(w)
    else match SweepAt(g, refs, w, i)
      case None => None
      case Some(w') => SweepFrom(g, refs, w', i + 1)
  }

  /** update_orphans over the whole volume, clusters 2 to sectors - 1. */
  function RecoverOrphans(g: Geometry, fat: seq<Link>, refs: seq<nat>, area: seq<Entry>): (o: Option<Sweep>)
    requires SweepReady(g, refs, Sweep(fat, area, []))
    ensures o.Some? ==> SweepReady(g, refs, o.value) && |o.value.area| == |area|
    ensures o.Some? ==> FatRepairOnly(fat, o.value.fat)
  {
    SweepFrom(g, refs, Sweep(fat, area, []), 2)
  }

  /** update_orphans, as the loop it is. */
  method UpdateOrphans(g: Geometry, fat: seq<Link>, refs: seq<nat>, area: seq<Entry>) returns (o: Option<Sweep>)
    requires SweepReady(g, refs, Sweep(fat, area, []))
    ensures o == RecoverOrphans(g, fat, refs, area)
  {
    var f: seq<Link> := fat;
    var r := area;
    var found: seq<Link> := [];
    var i := 2;
    while i < g.sectors
      invariant SweepReady(g, refs, Sweep(f, r, found))
      invariant RecoverOrphans(g, fat, refs, area) == SweepFrom(g, refs, Sweep(f, r, found), i)
      decreases g.sectors - i
    {
      ghost var before := Sweep(f, r, found);
      var next := f[i];
      if refs[i] == 0 && next != Free {
        if next == Bad {
          f := f[next := Free];
          assert SweepAt(g, refs, before, i) == Some(Sweep(f, r, found));
          i := i + 1;
          continue;
        }
        var n := |found| + 1;
        CreateFoster(r, n, i);
        var created := CreateDirent(r, OrphanName(n), i, OrphanSize);
        if created.None? {
          return None;
        }
        r := created.value;
        f := f[i := EndOfChain];
        found := found + [i];
      }
      assert SweepAt(g, refs, before, i) == Some(Sweep(f, r, found));
      i := i + 1;
    }
    return Some(Sweep(f, r, found));
  }

  predicate Ascending(s: seq<nat>) {
    forall a, b :: 0 <= a < b < |s| ==> s[a] < s[b]
  }

  lemma AscendingSnoc(s: seq<nat>, x: nat)
    requires Ascending(s) && forall k :: 0 <= k < |s| ==> s[k] < x
    ensures Ascending(s + [x])
  {
  }

  lemma SweepFromStep(g: Geometry, refs: seq<nat>, w: Sweep, i: nat)
    requires SweepReady(g, refs, w) && i < g.sectors
    requires SweepFrom(g, refs, w, i).Some?
    ensures SweepAt(g, refs, w, i).Some?
    ensures SweepFrom(g, refs, w, i) == SweepFrom(g, refs, SweepAt(g, refs, w, i).value, i + 1)
  {
  }

  lemma PrefixOfPrefix(a: seq<nat>, b: seq<nat>, c: seq<nat>)
    requires |a| <= |b| <= |c| && c[..|b|] == b && b[..|a|] == a
    ensures c[..|a|] == a
  {
    assert c[..|a|] == c[..|b|][..|a|];
  }

  /** The sweep only appends to the list of recovered clusters. */
  lemma {:induction false} SweepExtends(g: Geometry, refs: seq<nat>, w: Sweep, i: nat)
    requires SweepReady(g, refs, w)
    requires SweepFrom(g, refs, w, i).Some?
    ensures var v := SweepFrom(g, refs, w, i).value;
            |w.found| <= |v.found| && v.found[..|w.found|] == w.found
    decreases g.sectors - i
  {
    if i < g.sectors {
      SweepFromStep(g, refs, w, i);
      var w' := SweepAt(g, refs, w, i).value;
      SweepAtFound(g, refs, w, i);
      SweepExtends(g, refs, w', i + 1);
      assert w'.found[..|w.found|] == w.found;
      PrefixOfPrefix(w.found, w'.found, SweepFrom(g, refs, w', i + 1).value.found);
    }
  }

  /** The clusters recovered from `i` on all lie in [i, sectors). */
  lemma {:induction false} SweepRange(g: Geometry, refs: seq<nat>, w: Sweep, i: nat)
    requires SweepReady(g, refs, w)
    requires SweepFrom(g, refs, w, i).Some?
    ensures var v := SweepFrom(g, refs, w, i).value;
            |w.found| <= |v.found| && forall k :: |w.found| <= k < |v.found| ==> i <= v.found[k] < g.sectors
    decreases g.sectors - i
  {
    if i < g.sectors {
      SweepFromStep(g, refs, w, i);
      var w' := SweepAt(g, refs, w, i).value;
      SweepAtFound(g, refs, w, i);
      SweepRange(g, refs, w', i + 1);
      SweepExtends(g, refs, w', i + 1);
      var v := SweepFrom(g, refs, w', i + 1).value;
      if Recoverable(w.fat, refs, i) {
        assert v.found[|w.found|] == v.found[..|w'.found|][|w.found|] == i;
      }
    }
  }

  /** The list of recovered clusters stays in increasing order. */
  lemma {:induction false} SweepAscending(g: Geometry, refs: seq<nat>, w: Sweep, i: nat)
    requires SweepReady(g, refs, w)
    requires Ascending(w.found) && forall k :: 0 <= k < |w.found| ==> w.found[k] < i
    requires SweepFrom(g, refs, w, i).Some?
    ensures Ascending(SweepFrom(g, refs, w, i).value.found)
    decreases g.sectors - i
  {
    if i < g.sectors {
      SweepFromStep(g, refs, w, i);
      var w' := SweepAt(g, refs, w, i).value;
      SweepAtFound(g, refs, w, i);
      if Recoverable(w.fat, refs, i) {
        AscendingSnoc(w.found, i);
      }
      SweepAscending(g, refs, w', i + 1);
    }
  }

  /** The clusters recovered from `i` on are appended in increasing order, each in [i, sectors). */
  lemma SweepAppends(g: Geometry, refs: seq<nat>, w: Sweep, i: nat)
    requires SweepReady(g, refs, w)
    requires Ascending(w.found) && forall k :: 0 <= k < |w.found| ==> w.found[k] < i
    requires SweepFrom(g, refs, w, i).Some?
    ensures var v := SweepFrom(g, refs, w, i).value;
            && |w.found| <= |v.found| && v.found[..|w.found|] == w.found
            && Ascending(v.found)
            && forall k :: |w.found| <= k < |v.found| ==> i <= v.found[k] < g.sectors
  {
    SweepExtends(g, refs, w, i);
    SweepRange(g, refs, w, i);
    SweepAscending(g, refs, w, i);
  }

  /**
    Apart from 0xFF7, a cluster from `i` on is recovered exactly when it is
    an orphan not marked bad.
   */
  lemma {:induction false} SweepRecovers(g: Geometry, refs: seq<nat>, w: Sweep, i: nat)
    requires SweepReady(g, refs, w)
    requires forall k :: 0 <= k < |w.found| ==> w.found[k] < i
    requires SweepFrom(g, refs, w, i).Some?
    ensures var v := SweepFrom(g, refs, w, i).value;
            forall x :: i <= x < g.sectors && x != Bad ==> (x in v.found <==> Recoverable(w.fat, refs, x))
    decreases g.sectors - i
  {
    if i < g.sectors {
      SweepFromStep(g, refs, w, i);
      var w' := SweepAt(g, refs, w, i).value;
      SweepAtFound(g, refs, w, i);
      SweepRecovers(g, refs, w', i + 1);
      RecoversAt(g, refs, w, i);
      RecoversKept(g, refs, w, i);
      var v := SweepFrom(g, refs, w', i + 1).value;
      assert SweepFrom(g, refs, w, i).value == v;
      forall x | i <= x < g.sectors && x != Bad
        ensures x in v.found <==> Recoverable(w.fat, refs, x)
      {
        if x > i {
          assert x in v.found <==> Recoverable(w'.fat, refs, x);
        }
      }
    }
  }

  /** Cluster `i` itself is in the final list exactly when it is recovered. */
  lemma RecoversAt(g: Geometry, refs: seq<nat>, w: Sweep, i: nat)
    requires SweepReady(g, refs, w) && i < g.sectors
    requires forall k :: 0 <= k < |w.found| ==> w.found[k] < i
    requires SweepFrom(g, refs, w, i).Some?
    ensures i in SweepFrom(g, refs, w, i).value.found <==> Recoverable(w.fat, refs, i)
  {
    SweepFromStep(g, refs, w, i);
    SweepAtFound(g, refs, w, i);
    var w' := SweepAt(g, refs, w, i).value;
    SweepRange(g, refs, w', i + 1);
    SweepExtends(g, refs, w', i + 1);
    AmongIff(SweepFrom(g, refs, w', i + 1).value.found, w.found, w'.found, i, Recoverable(w.fat, refs, i));
  }

  /**
    A list that extends `p` by `i` (when `b`) or by nothing, then only by
    values above `i`, holds `i` exactly when `b`, provided `p` lies below `i`.
   */
  lemma AmongIff(v: seq<nat>, p: seq<nat>, p': seq<nat>, i: nat, b: bool)
    requires p' == if b then p + [i] else p
    requires |p'| <= |v| && v[..|p'|] == p'
    requires forall k :: 0 <= k < |p| ==> p[k] < i
    requires forall k :: |p'| <= k < |v| ==> i < v[k]
    ensures i in v <==> b
  {
    if b {
      assert v[|p|] == v[..|p'|][|p|] == i;
    } else {
      forall k | 0 <= k < |v| ensures v[k] != i {
        if k < |p| { assert v[k] == v[..|p|][k]; }
      }
    }
  }

  /** Later clusters other than 0xFF7 are judged on the same FAT entries after turn `i`. */
  lemma RecoversKept(g: Geometry, refs: seq<nat>, w: Sweep, i: nat)
    requires SweepReady(g, refs, w) && i < g.sectors && SweepAt(g, refs, w, i).Some?
    ensures forall x :: i < x < g.sectors && x != Bad ==>
              Recoverable(SweepAt(g, refs, w, i).value.fat, refs, x) == Recoverable(w.fat, refs, x)
  {
    SweepAtFat(g, refs, w, i);
  }

  /**
    Apart from 0xFF7, the FAT entry of each cluster recovered from `i` on
    becomes end-of-chain and every other entry is untouched.
   */
  lemma {:induction false} SweepMarksEnd(g: Geometry, refs: seq<nat>, w: Sweep, i: nat)
    requires SweepReady(g, refs, w)
    requires SweepFrom(g, refs, w, i).Some?
    ensures var v := SweepFrom(g, refs, w, i).value;
            && |w.found| <= |v.found|
            && forall x :: 0 <= x < FatEntries && x != Bad ==>
                 v.fat[x] == if x in v.found[|w.found|..] then EndOfChain else w.fat[x]
    decreases g.sectors - i
  {
    SweepExtends(g, refs, w, i);
    if i < g.sectors {
      SweepFromStep(g, refs, w, i);
      var v := SweepFrom(g, refs, w, i).value;
      var w' := SweepAt(g, refs, w, i).value;
      SweepAtFound(g, refs, w, i);
      SweepAtFat(g, refs, w, i);
      SweepMarksEnd(g, refs, w', i + 1);
      if Recoverable(w.fat, refs, i) {
        SweepExtends(g, refs, w', i + 1);
        assert v.found[|w.found|] == v.found[..|w'.found|][|w.found|] == i;
        assert v.found[|w.found|..] == [i] + v.found[|w'.found|..];
      }
    }
  }

  /** Some cluster from `i` on is a bad-marked orphan. */
  predicate BadOrphanFrom(g: Geometry, fat: seq<Link>, refs: seq<nat>, i: nat)
    requires |fat| == FatEntries && g.sectors <= FatEntries && |refs| >= g.sectors
  {
    exists x :: i <= x < g.sectors && IsOrphan(fat, refs, x) && fat[x] == Bad
  }

  /**
    On a volume whose clusters all lie below 0xFF7, FAT entry 0xFF7 ends up
    free exactly when some bad-marked orphan was met, and is otherwise left
    as it was: the bad orphans themselves keep their marks.
   */
  lemma {:induction false} SweepFreesEntryFF7(g: Geometry, refs: seq<nat>, w: Sweep, i: nat)
    requires SweepReady(g, refs, w) && g.sectors <= Bad
    requires SweepFrom(g, refs, w, i).Some?
    ensures var v := SweepFrom(g, refs, w, i).value;
            && v.fat[Bad] == (if BadOrphanFrom(g, w.fat, refs, i) then Free else w.fat[Bad])
            && forall x :: 0 <= x < g.sectors && IsOrphan(w.fat, refs, x) && w.fat[x] == Bad ==> v.fat[x] == Bad
    decreases g.sectors - i
  {
    if i < g.sectors {
      SweepFromStep(g, refs, w, i);
      var w' := SweepAt(g, refs, w, i).value;
      SweepAtFat(g, refs, w, i);
      SweepFreesEntryFF7(g, refs, w', i + 1);
      BadOrphanShift(g, refs, w.fat, w'.fat, i);
    }
  }

  lemma BadOrphanShift(g: Geometry, refs: seq<nat>, fat: seq<Link>, fat': seq<Link>, i: nat)
    requires |fat| == FatEntries && |fat'| == FatEntries && g.sectors <= Bad && |refs| >= g.sectors
    requires i < g.sectors
    requires forall x :: 0 <= x < FatEntries && x != Bad && x != i ==> fat'[x] == fat[x]
    requires fat'[i] == if Recoverable(fat, refs, i) then EndOfChain else fat[i]
    requires fat'[Bad] == if IsOrphan(fat, refs, i) && fat[i] == Bad then Free else fat[Bad]
    ensures (BadOrphanFrom(g, fat, refs, i) ==> BadOrphanFrom(g, fat', refs, i + 1) || (IsOrphan(fat, refs, i) && fat[i] == Bad))
    ensures BadOrphanFrom(g, fat', refs, i + 1) ==> BadOrphanFrom(g, fat, refs, i)
    ensures forall x :: 0 <= x < g.sectors && IsOrphan(fat, refs, x) && fat[x] == Bad ==> fat'[x] == Bad
    ensures forall x :: i < x < g.sectors ==> (IsOrphan(fat', refs, x) && fat'[x] == Bad <==> IsOrphan(fat, refs, x) && fat[x] == Bad)
  {
    if BadOrphanFrom(g, fat, refs, i) && !(IsOrphan(fat, refs, i) && fat[i] == Bad) {
      var x :| i <= x < g.sectors && IsOrphan(fat, refs, x) && fat[x] == Bad;
      assert x != i;
      assert IsOrphan(fat', refs, x) && fat'[x] == Bad;
    }
    if BadOrphanFrom(g, fat', refs, i + 1) {
      var x :| i + 1 <= x < g.sectors && IsOrphan(fat', refs, x) && fat'[x] == Bad;
      assert IsOrphan(fat, refs, x) && fat[x] == Bad;
    }
  }

  /** Every recovered cluster has its FOUND entry in a slot before the first free one. */
  predicate Fostered(area: seq<Entry>, found: seq<Link>)
    requires WellFormedSlots(area)
  {
    forall k :: 0 <= k < |found| ==>
      exists p :: 0 <= p < FirstFreeSlot(area, 0) && area[p] == FosterEntry(k + 1, found[k])
  }

  lemma FosterStep(area: seq<Entry>, found: seq<Link>, c: Link)
    requires WellFormedSlots(area) && Fostered(area, found)
    requires PlaceEntry(area, FosterEntry(|found| + 1, c)).Some?
    ensures var r := PlaceEntry(area, FosterEntry(|found| + 1, c)).value;
            Fostered(r, found + [c])
  {
    var e := FosterEntry(|found| + 1, c);
    var r := PlaceEntry(area, e).value;
    var k0 := FirstFreeSlot(area, 0);
    PlaceAdvances(area, e);
    var found' := found + [c];
    forall k | 0 <= k < |found'|
      ensures exists p :: 0 <= p < FirstFreeSlot(r, 0) && r[p] == FosterEntry(k + 1, found'[k])
    {
      if k == |found| {
        assert r[k0] == FosterEntry(k + 1, found'[k]);
      } else {
        assert found'[k] == found[k];
        var p :| 0 <= p < k0 && area[p] == FosterEntry(k + 1, found[k]);
        assert r[p] == area[p];
      }
    }
  }

  /**
    Each recovered cluster, in order, keeps its own entry FOUND<n>.DAT in
    the directory area to the end of the sweep.
   */
  lemma {:induction false} SweepFosters(g: Geometry, refs: seq<nat>, w: Sweep, i: nat)
    requires SweepReady(g, refs, w) && Fostered(w.area, w.found)
    requires SweepFrom(g, refs, w, i).Some?
    ensures var v := SweepFrom(g, refs, w, i).value;
            Fostered(v.area, v.found)
    decreases g.sectors - i
  {
    if i < g.sectors {
      SweepFromStep(g, refs, w, i);
      FosterAt(g, refs, w, i);
      SweepFosters(g, refs, SweepAt(g, refs, w, i).value, i + 1);
    }
  }

  lemma FosterAt(g: Geometry, refs: seq<nat>, w: Sweep, i: nat)
    requires SweepReady(g, refs, w) && Fostered(w.area, w.found)
    requires i < g.sectors && SweepAt(g, refs, w, i).Some?
    ensures Fostered(SweepAt(g, refs, w, i).value.area, SweepAt(g, refs, w, i).value.found)
  {
    SweepAtFound(g, refs, w, i);
    SweepAtRoot(g, refs, w, i);
    if Recoverable(w.fat, refs, i) {
      FosterStep(w.area, w.found, i);
    }
  }

  /**
    A whole sweep: the recovered clusters are, in increasing order, exactly
    the orphans not marked bad (0xFF7 aside); their FAT entries become
    end-of-chain and nothing else in the FAT changes but entry 0xFF7.
   */
  lemma OrphansRecovered(g: Geometry, fat: seq<Link>, refs: seq<nat>, area: seq<Entry>)
    requires SweepReady(g, refs, Sweep(fat, area, []))
    requires RecoverOrphans(g, fat, refs, area).Some?
    ensures var v := RecoverOrphans(g, fat, refs, area).value;
            && Ascending(v.found)
            && (forall k :: 0 <= k < |v.found| ==> 2 <= v.found[k] < g.sectors)
            && (forall x :: 2 <= x < g.sectors && x != Bad ==> (x in v.found <==> Recoverable(fat, refs, x)))
            && (forall x :: 0 <= x < FatEntries && x != Bad ==>
                  v.fat[x] == if x in v.found then EndOfChain else fat[x])
  {
    var w := Sweep(fat, area, []);
    SweepAppends(g, refs, w, 2);
    SweepRecovers(g, refs, w, 2);
    SweepMarksEnd(g, refs, w, 2);
    var v := RecoverOrphans(g, fat, refs, area).value;
    assert v.found[0..] == v.found;
  }

  /** After a whole sweep the n-th recovered cluster has its entry FOUND<n>.DAT in the directory area. */
  lemma OrphansFostered(g: Geometry, fat: seq<Link>, refs: seq<nat>, area: seq<Entry>)
    requires SweepReady(g, refs, Sweep(fat, area, []))
    requires RecoverOrphans(g, fat, refs, area).Some?
    ensures var v := RecoverOrphans(g, fat, refs, area).value;
            forall k :: 0 <= k < |v.found| ==>
              exists p :: 0 <= p < |v.area| && v.area[p] == FosterEntry(k + 1, v.found[k])
  {
    SweepFosters(g, refs, Sweep(fat, area, []), 2);
    var v := RecoverOrphans(g, fat, refs, area).value;
    assert FirstFreeSlot(v.area, 0) <= |v.area|;
  }

  /** The FOUND entries of the recovered clusters, in recovery order. */
  function FostersOf(found: seq<Link>): (r: seq<Entry>)
    ensures |r| == |found| && forall k :: 0 <= k < |found| ==> r[k] == FosterEntry(k + 1, found[k])
  {
    seq(|found|, k requires 0 <= k < |found| => FosterEntry(k + 1, found[k]))
  }

  /**
    What a sweep may leave in each slot of the directory area: the slot as
    it was, a cleared slot, or the FOUND entry of a recovered cluster.
   */
  predicate SweptArea(area: seq<Entry>, area': seq<Entry>, found: seq<Link>) {
    && |area'| == |area|
    && forall j :: 0 <= j < |area| ==> area'[j] == area[j] || area'[j] == ZeroEntry || area'[j] in FostersOf(found)
  }

  lemma SweptTransitive(a0: seq<Entry>, a1: seq<Entry>, a2: seq<Entry>, f1: seq<Link>, f2: seq<Link>)
    requires SweptArea(a0, a1, f1) && SweptArea(a1, a2, f2)
    requires |f1| <= |f2| && f2[..|f1|] == f1
    ensures SweptArea(a0, a2, f2)
  {
    assert FostersOf(f1) == FostersOf(f2)[..|f1|];
  }

  /** One turn writes only free slots and the slot after a never-used one, and never a slot before the first free one. */
  lemma SweptAt(g: Geometry, refs: seq<nat>, w: Sweep, i: nat)
    requires SweepReady(g, refs, w) && i < g.sectors && SweepAt(g, refs, w, i).Some?
    ensures var w' := SweepAt(g, refs, w, i).value;
            var k := FirstFreeSlot(w.area, 0);
            && SweptArea(w.area, w'.area, w'.found)
            && w'.area[..k] == w.area[..k]
            && FirstFreeSlot(w'.area, 0) >= k
  {
    SweepAtFound(g, refs, w, i);
    SweepAtRoot(g, refs, w, i);
    if Recoverable(w.fat, refs, i) {
      var e := FosterEntry(|w.found| + 1, i);
      PlaceAdvances(w.area, e);
      assert FostersOf(w.found + [i])[|w.found|] == e;
    }
  }

  /**
    From cluster `i` on, every slot ends as it was, cleared, or a FOUND
    entry, and the slots before the first free one are never touched.
   */
  lemma {:induction false} SweepKeeps(g: Geometry, refs: seq<nat>, w: Sweep, i: nat)
    requires SweepReady(g, refs, w)
    requires SweepFrom(g, refs, w, i).Some?
    ensures var v := SweepFrom(g, refs, w, i).value;
            var k := FirstFreeSlot(w.area, 0);
            && SweptArea(w.area, v.area, v.found)
            && v.area[..k] == w.area[..k]
            && FirstFreeSlot(v.area, 0) >= k
    decreases g.sectors - i
  {
    if i < g.sectors {
      SweepFromStep(g, refs, w, i);
      var w' := SweepAt(g, refs, w, i).value;
      SweptAt(g, refs, w, i);
      SweepKeeps(g, refs, w', i + 1);
      SweepExtends(g, refs, w', i + 1);
      var v := SweepFrom(g, refs, w', i + 1).value;
      SweptTransitive(w.area, w'.area, v.area, w'.found, v.found);
      var k := FirstFreeSlot(w.area, 0);
      var k' := FirstFreeSlot(w'.area, 0);
      assert v.area[..k] == v.area[..k'][..k];
      assert w'.area[..k] == w'.area[..k'][..k];
    }
  }

  /**
    After a whole sweep every slot of the directory area is as it was,
    cleared, or the FOUND entry of a recovered cluster; the slots before
    the first free one keep their entries.
   */
  lemma OrphansKeep(g: Geometry, fat: seq<Link>, refs: seq<nat>, area: seq<Entry>)
    requires SweepReady(g, refs, Sweep(fat, area, []))
    requires RecoverOrphans(g, fat, refs, area).Some?
    ensures var v := RecoverOrphans(g, fat, refs, area).value;
            && SweptArea(area, v.area, v.found)
            && forall j :: 0 <= j < FirstFreeSlot(area, 0) ==> v.area[j] == area[j]
  {
    SweepKeeps(g, refs, Sweep(fat, area, []), 2);
    var v := RecoverOrphans(g, fat, refs, area).value;
    var k := FirstFreeSlot(area, 0);
    forall j | 0 <= j < k ensures v.area[j] == area[j] {
      assert v.area[..k][j] == area[..k][j];
    }
  }

  /** Entry 0xFF7 of the FAT after a whole sweep of a volume with fewer than 0xFF7 clusters. */
  lemma OrphansFreeEntryFF7(g: Geometry, fat: seq<Link>, refs: seq<nat>, area: seq<Entry>)
    requires SweepReady(g, refs, Sweep(fat, area, [])) && g.sectors <= Bad
    requires RecoverOrphans(g, fat, refs, area).Some?
    ensures var v := RecoverOrphans(g, fat, refs, area).value;
            && v.fat[Bad] == (if BadOrphanFrom(g, fat, refs, 2) then Free else fat[Bad])
            && forall x :: 2 <= x < g.sectors && IsOrphan(fat, refs, x) && fat[x] == Bad ==> v.fat[x] == Bad
  {
    SweepFreesEntryFF7(g, refs, Sweep(fat, area, []), 2);
  }
}
