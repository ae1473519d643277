/**
  Where directory slots lie in the image. The root region is followed
  directly by the data region, cluster 2 first, so a slot search that
  starts at the first root slot and runs past the last root slot goes on
  through the slots of data clusters 2, 3, ... in turn. The model keeps the
  root region and each data cluster as separate slot sequences; the
  directory area is their concatenation in image order.

  The data region starts on the sector after the root region's last
  sector, so the slots run on without a gap only when the root region
  fills whole sectors: rootDirEnts * 32 a multiple of bytesPerSec, as on
  every standard floppy (224 * 32 = 14 * 512). The model assumes this.
 */
module Layout {
  import opened Fat

  /** One past the last data cluster: the valid clusters are exactly 2 up to here. */
  function DataEnd(g: Geometry): (n: nat)
    ensures 2 <= n <= Bad
    ensures forall c :: IsValidCluster(g, c) <==> 2 <= c < n
  {
    if g.clusterLimit <= 2 then 2 else if g.clusterLimit < Bad then g.clusterLimit else Bad
  }

  /** Slot sequences laid one after the other. */
  function Concat(ds: seq<seq<Entry>>): seq<Entry> {
    if |ds| == 0 then [] else ds[0] + Concat(ds[1..])
  }

  /** `slots` cut into `count` consecutive runs of `n` slots. */
  function Chunks(slots: seq<Entry>, n: nat, count: nat): (r: seq<seq<Entry>>)
    requires |slots| == count * n
    ensures |r| == count
    ensures forall k :: 0 <= k < count ==> |r[k]| == n
    ensures WellFormedSlots(slots) ==> forall k :: 0 <= k < count ==> WellFormedSlots(r[k])
    decreases count
  {
    if count == 0 then []
    else
      assert count * n == (count - 1) * n + n;
      [slots[..n]] + Chunks(slots[n..], n, count - 1)
  }

  lemma {:induction false} ConcatUniform(ds: seq<seq<Entry>>, n: nat)
    requires forall k :: 0 <= k < |ds| ==> |ds[k]| == n
    ensures |Concat(ds)| == |ds| * n
  {
    if |ds| > 0 {
      ConcatUniform(ds[1..], n);
      assert |ds| * n == (|ds| - 1) * n + n;
    }
  }

  lemma {:induction false} ConcatWellFormed(ds: seq<seq<Entry>>)
    requires forall k :: 0 <= k < |ds| ==> WellFormedSlots(ds[k])
    ensures WellFormedSlots(Concat(ds))
  {
    if |ds| > 0 {
      ConcatWellFormed(ds[1..]);
      var c := Concat(ds);
      forall j | 0 <= j < |c| ensures WellFormedEntry(c[j]) {
        if j < |ds[0]| {
          assert c[j] == ds[0][j];
        } else {
          assert c[j] == Concat(ds[1..])[j - |ds[0]|];
        }
      }
    }
  }

  /** Slot `j` of run `k` sits at `k * n + j` in the concatenation of runs of `n` slots. */
  lemma {:induction false} ConcatAt(ds: seq<seq<Entry>>, n: nat, k: nat, j: nat)
    requires forall i :: 0 <= i < |ds| ==> |ds[i]| == n
    requires k < |ds| && j < n
    ensures k * n + j < |Concat(ds)|
    ensures Concat(ds)[k * n + j] == ds[k][j]
  {
    ConcatUniform(ds, n);
    assert Concat(ds) == ds[0] + Concat(ds[1..]);
    if k > 0 {
      ConcatAt(ds[1..], n, k - 1, j);
      assert k * n + j == n + ((k - 1) * n + j);
    }
  }

  /** Cutting a concatenation of equal runs gives the runs back. */
  lemma {:induction false} ChunksOfConcat(ds: seq<seq<Entry>>, n: nat)
    requires forall k :: 0 <= k < |ds| ==> |ds[k]| == n
    ensures |Concat(ds)| == |ds| * n
    ensures Chunks(Concat(ds), n, |ds|) == ds
  {
    ConcatUniform(ds, n);
    if |ds| > 0 {
      var c := Concat(ds);
      assert c[..n] == ds[0] && c[n..] == Concat(ds[1..]);
      ChunksOfConcat(ds[1..], n);
      assert [ds[0]] + ds[1..] == ds;
    }
  }

  /** Laying the runs of a cut end to end gives the slots back. */
  lemma {:induction false} ConcatOfChunks(slots: seq<Entry>, n: nat, count: nat)
    requires |slots| == count * n
    ensures Concat(Chunks(slots, n, count)) == slots
    decreases count
  {
    if count > 0 {
      assert count * n == (count - 1) * n + n;
      var r := Chunks(slots, n, count);
      assert r[1..] == Chunks(slots[n..], n, count - 1);
      ConcatOfChunks(slots[n..], n, count - 1);
      assert slots[..n] + slots[n..] == slots;
    }
  }

  /** The directory area: the root region, then data clusters 2 up to DataEnd, as they lie in the image. */
  function DirArea(g: Geometry, root: seq<Entry>, data: seq<seq<Entry>>): (a: seq<Entry>)
    requires |data| == FatEntries
    ensures |root| <= |a| && a[..|root|] == root
    ensures DataEnd(g) > 2 ==> |root| + |data[2]| <= |a| && a[|root|..|root| + |data[2]|] == data[2]
    ensures DataEnd(g) == 2 ==> a == root
  {
    root + Concat(data[2..DataEnd(g)])
  }

  lemma DirAreaShape(g: Geometry, s: Scan)
    requires WellFormedScan(g, s)
    ensures |DirArea(g, s.root, s.data)| == |s.root| + (DataEnd(g) - 2) * SlotsPerCluster(g)
    ensures WellFormedSlots(DirArea(g, s.root, s.data))
  {
    var ds := s.data[2..DataEnd(g)];
    assert forall k :: 0 <= k < |ds| ==> ds[k] == s.data[k + 2];
    ConcatUniform(ds, SlotsPerCluster(g));
    ConcatWellFormed(ds);
    var a := DirArea(g, s.root, s.data);
    forall j | 0 <= j < |a| ensures WellFormedEntry(a[j]) {
      if j >= |s.root| {
        assert a[j] == Concat(ds)[j - |s.root|];
      }
    }
  }

  /**
    The scan with its directory area replaced by `area`: the root region
    takes the first slots, each data cluster in the area the next run of
    slots; the FAT, the counts and every other cluster stay, and reading
    the directory area back gives `area`.
   */
  function StoreArea(g: Geometry, s: Scan, area: seq<Entry>): (s': Scan)
    requires WellFormedScan(g, s) && WellFormedSlots(area)
    requires |area| == |s.root| + (DataEnd(g) - 2) * SlotsPerCluster(g)
    ensures WellFormedScan(g, s')
    ensures s'.fat == s.fat && s'.refs == s.refs
    ensures forall c :: 0 <= c < |s.data| && !(2 <= c < DataEnd(g)) ==> s'.data[c] == s.data[c]
    ensures DirArea(g, s'.root, s'.data) == area
  {
    var n := SlotsPerCluster(g);
    var hi := DataEnd(g);
    var root := area[..|s.root|];
    var mid := Chunks(area[|s.root|..], n, hi - 2);
    var data := s.data[..2] + mid + s.data[hi..];
    assert forall c :: 2 <= c < hi ==> data[c] == mid[c - 2];
    assert forall c :: hi <= c < |s.data| ==> data[c] == s.data[c];
    assert forall c :: 0 <= c < 2 ==> data[c] == s.data[c];
    assert WellFormedSlots(area[|s.root|..]);
    assert data[2..hi] == mid;
    ConcatOfChunks(area[|s.root|..], n, hi - 2);
    assert root + area[|s.root|..] == area;
    s.(root := root, data := data)
  }

  /** Storing the area a scan already has changes nothing. */
  lemma StoreAreaSame(g: Geometry, s: Scan)
    requires WellFormedScan(g, s)
    ensures |DirArea(g, s.root, s.data)| == |s.root| + (DataEnd(g) - 2) * SlotsPerCluster(g)
    ensures WellFormedSlots(DirArea(g, s.root, s.data))
    ensures StoreArea(g, s, DirArea(g, s.root, s.data)) == s
  {
    DirAreaShape(g, s);
    var n := SlotsPerCluster(g);
    var hi := DataEnd(g);
    var ds := s.data[2..hi];
    ChunksOfConcat(ds, n);
    var area := DirArea(g, s.root, s.data);
    assert area[..|s.root|] == s.root && area[|s.root|..] == Concat(ds);
    assert s.data[..2] + ds + s.data[hi..] == s.data;
  }

  /** The slots right after the root region are those of data cluster 2. */
  lemma AreaAfterRoot(g: Geometry, s: Scan, j: nat)
    requires WellFormedScan(g, s) && DataEnd(g) > 2 && j < SlotsPerCluster(g)
    ensures |s.root| + j < |DirArea(g, s.root, s.data)|
    ensures DirArea(g, s.root, s.data)[|s.root| + j] == s.data[2][j]
  {
    DirAreaShape(g, s);
    var ds := s.data[2..DataEnd(g)];
    assert ds[0] == s.data[2];
    assert Concat(ds) == ds[0] + Concat(ds[1..]);
  }

  /**
    Data cluster `c` occupies the run of slots that starts `c - 2` whole
    clusters after the end of the root region, as cluster_to_addr places it.
   */
  lemma ClusterInArea(g: Geometry, s: Scan, c: nat, j: nat)
    requires WellFormedScan(g, s) && 2 <= c < DataEnd(g) && j < SlotsPerCluster(g)
    ensures |s.root| + (c - 2) * SlotsPerCluster(g) + j < |DirArea(g, s.root, s.data)|
    ensures DirArea(g, s.root, s.data)[|s.root| + (c - 2) * SlotsPerCluster(g) + j] == s.data[c][j]
  {
    var ds := s.data[2..DataEnd(g)];
    assert forall i :: 0 <= i < |ds| ==> ds[i] == s.data[i + 2];
    ConcatAt(ds, SlotsPerCluster(g), c - 2, j);
  }
}
