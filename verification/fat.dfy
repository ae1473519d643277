/**
  Shapes shared by every part of the checker: integer widths, the FAT12
  sentinels, the directory-entry record, the volume geometry and the scan
  state (the volume plus the per-cluster reference table).

  The on-disk values follow the Microsoft FAT specification ("FAT Data
  Structure" and "FAT Directory Structure").
 */
module Fat {

  type byte = b: int | 0 <= b < 0x100
  type u16 = x: int | 0 <= x < 0x1_0000
  type u32 = x: int | 0 <= x < 0x1_0000_0000

  /** A 12-bit FAT entry: either a cluster number or a sentinel. */
  type Link = x: int | 0 <= x < 0x1000

  /** The FAT is indexed by the whole 12-bit cluster space. */
  const FatEntries: nat := 0x1000

  const Free: Link := 0x000
  const Bad: Link := 0xFF7
  const EndOfChain: Link := 0xFF8

  /** First byte of a slot's name. */
  const SlotEmpty: byte := 0x00
  const SlotDeleted: byte := 0xE5
  const DotMark: byte := 0x2E

  /** Attribute bits. A long-name slot has the four low bits all set. */
  const AttrNormal: byte := 0x00
  const AttrReadOnly: byte := 0x01
  const AttrHidden: byte := 0x02
  const AttrSystem: byte := 0x04
  const AttrVolume: byte := 0x08
  const AttrDirectory: byte := 0x10
  const AttrArchive: byte := 0x20
  const AttrLongName: byte := 0x0F

  /** Bytes in one on-disk directory entry. */
  const DirEntryBytes: nat := 32

  /** The cluster size the size rule and the orphan sweep assume, whatever the geometry says. */
  const ClusterBytes: nat := 512

  predicate HasAll(attr: byte, mask: byte) {
    (attr as bv8) & (mask as bv8) == mask as bv8
  }

  predicate HasAny(attr: byte, mask: byte) {
    (attr as bv8) & (mask as bv8) != 0
  }

  /**
    The boot-sector values the checker consumes. `clusterLimit` is the
    exclusive upper bound on usable cluster numbers that the volume accessor
    derives from the geometry.
   */
  datatype Geometry = Geometry(
    bytesPerSec: nat,
    secPerClust: nat,
    rootDirEnts: nat,
    sectors: nat,
    clusterLimit: nat)

  /** Directory slots held by one data cluster. */
  function SlotsPerCluster(g: Geometry): nat {
    (g.bytesPerSec * g.secPerClust) / DirEntryBytes
  }

  /** A data cluster: at least 2, inside the volume and below every sentinel. */
  predicate IsValidCluster(g: Geometry, c: int) {
    2 <= c < g.clusterLimit && c < Bad
  }

  /** A 32-byte directory entry, reduced to the fields the checker uses. */
  datatype Entry = Entry(name: seq<byte>, ext: seq<byte>, attr: byte, start: u16, size: u32)

  predicate WellFormedEntry(e: Entry) {
    |e.name| == 8 && |e.ext| == 3
  }

  /** An all-zero slot: reads as "empty, and nothing follows". */
  const ZeroEntry: Entry := Entry([0, 0, 0, 0, 0, 0, 0, 0], [0, 0, 0], 0, 0, 0)

  predicate WellFormedSlots(slots: seq<Entry>) {
    forall i :: 0 <= i < |slots| ==> WellFormedEntry(slots[i])
  }

  /**
    The state one run of the checker works on: the FAT, the root directory
    region, every data cluster viewed as directory slots, and the reference
    table `refs` (cluster -> number of claimants seen so far).
   */
  datatype Scan = Scan(fat: seq<Link>, refs: seq<nat>, root: seq<Entry>, data: seq<seq<Entry>>)

  predicate WellFormedScan(g: Geometry, s: Scan) {
    && |s.fat| == FatEntries
    && |s.refs| >= g.clusterLimit
    && |s.root| == g.rootDirEnts
    && WellFormedSlots(s.root)
    && |s.data| == FatEntries
    && forall c :: 0 <= c < |s.data| ==> |s.data[c]| == SlotsPerCluster(g) && WellFormedSlots(s.data[c])
  }

  /**
    The only FAT rewrites the checker makes: an entry becomes end-of-chain,
    or entry 0xFF7 becomes free.
   */
  predicate FatRepairOnly(fat: seq<Link>, fat': seq<Link>) {
    && |fat'| == |fat|
    && forall x :: 0 <= x < |fat| ==>
         fat'[x] == fat[x] || fat'[x] == EndOfChain || (x == Bad && fat'[x] == Free)
  }

  /** No reference count goes down. */
  predicate RefsGrow(refs: seq<nat>, refs': seq<nat>) {
    && |refs'| == |refs|
    && forall x :: 0 <= x < |refs| ==> refs[x] <= refs'[x]
  }

  /**
    Counts only grow, and a count that grows goes from 0 to 1: what
    crediting file chains does, each cluster being claimed at most once.
   */
  predicate ClaimsOnly(refs: seq<nat>, refs': seq<nat>) {
    && RefsGrow(refs, refs')
    && forall x :: 0 <= x < |refs| ==> refs'[x] <= Max(refs[x], 1)
  }

  lemma ClaimsOnlyTransitive(r1: seq<nat>, r2: seq<nat>, r3: seq<nat>)
    requires ClaimsOnly(r1, r2) && ClaimsOnly(r2, r3)
    ensures ClaimsOnly(r1, r3)
  {
  }

  /** Result of a computation that may exhaust its step budget. */
  datatype Outcome<T> = Done(value: T) | OutOfFuel

  datatype Option<T> = None | Some(value: T)

  function Max(a: int, b: int): int {
    if a < b then b else a
  }
}
